/**
 The periodic cleanup. Sizes are scaled by ten, so that 90% of the limit is `9 * limit`; what a
 removal does is an arbitrary function of the round and the directory.
 */
module Eviction {
  import opened Text
  import opened Disk

  // ---------- choosing the oldest inactive directory ----------

  predicate DistinctNames(es: seq<Entry>) { forall i, j :: 0 <= i < j < |es| ==> es[i].name != es[j].name }

  predicate IsCandidate(e: Entry, active: set<string>) { e.name !in active && e.node.Dir? }

  /** The unregistered directories, in listing order. */
  function Candidates(es: seq<Entry>, active: set<string>): seq<Entry> {
    if es == [] then []
    else if IsCandidate(es[0], active) then [es[0]] + Candidates(es[1..], active)
    else Candidates(es[1..], active)
  }

  function Insert(e: Entry, s: seq<Entry>): seq<Entry> {
    if s == [] || e.mtime <= s[0].mtime then [e] + s else [s[0]] + Insert(e, s[1..])
  }

  /** The stable sort by modification time, oldest first. */
  function Sort(es: seq<Entry>): seq<Entry> {
    if es == [] then [] else Insert(es[0], Sort(es[1..]))
  }

  /** `getOldestInactiveTorrent`. */
  function Oldest(es: seq<Entry>, active: set<string>): Option<Entry> {
    var s := Sort(Candidates(es, active));
    if s == [] then None else Some(s[0])
  }

  /** The entries with a given time, in order. */
  function WithTime(es: seq<Entry>, t: int): seq<Entry> {
    if es == [] then []
    else if es[0].mtime == t then [es[0]] + WithTime(es[1..], t)
    else WithTime(es[1..], t)
  }

  ghost predicate Sorted(es: seq<Entry>) { forall i, j :: 0 <= i < j < |es| ==> es[i].mtime <= es[j].mtime }

  lemma {:induction false} InsertKeeps(e: Entry, s: seq<Entry>)
    ensures multiset(Insert(e, s)) == multiset{e} + multiset(s)
  {
    if s != [] && s[0].mtime < e.mtime {
      InsertKeeps(e, s[1..]);
      assert s == [s[0]] + s[1..];
    }
  }

  lemma {:induction false} InsertSorted(e: Entry, s: seq<Entry>)
    requires Sorted(s)
    ensures Sorted(Insert(e, s)) && |Insert(e, s)| > 0
    ensures Insert(e, s)[0] == if s == [] || e.mtime <= s[0].mtime then e else s[0]
  {
    if s != [] && s[0].mtime < e.mtime {
      InsertSorted(e, s[1..]);
      HeadFirst(s[0], Insert(e, s[1..]));
    }
  }

  lemma HeadFirst(e: Entry, s: seq<Entry>)
    requires Sorted(s) && (s != [] ==> e.mtime <= s[0].mtime)
    ensures Sorted([e] + s)
  {
  }

  lemma {:induction false} InsertStable(e: Entry, s: seq<Entry>, t: int)
    ensures WithTime(Insert(e, s), t) == if e.mtime == t then [e] + WithTime(s, t) else WithTime(s, t)
  {
    if s != [] && s[0].mtime < e.mtime {
      InsertStable(e, s[1..], t);
    }
  }

  lemma {:induction false} SortSorted(es: seq<Entry>)
    ensures Sorted(Sort(es))
  {
    if es != [] {
      SortSorted(es[1..]);
      InsertSorted(es[0], Sort(es[1..]));
    }
  }

  lemma {:induction false} SortKeeps(es: seq<Entry>)
    ensures multiset(Sort(es)) == multiset(es)
  {
    if es != [] {
      SortKeeps(es[1..]);
      InsertKeeps(es[0], Sort(es[1..]));
      assert es == [es[0]] + es[1..];
    }
  }

  /** The sort orders by time, keeps every entry, and keeps the listing order of equal times. */
  lemma {:induction false} SortSpec(es: seq<Entry>, t: int)
    ensures Sorted(Sort(es)) && multiset(Sort(es)) == multiset(es)
    ensures WithTime(Sort(es), t) == WithTime(es, t)
  {
    SortSorted(es);
    SortKeeps(es);
    if es != [] {
      SortSpec(es[1..], t);
      InsertStable(es[0], Sort(es[1..]), t);
    }
  }

  // ---------- removing one entry ----------

  /** Removal succeeds, or fails and leaves a remainder of the directory with a possibly new time. */
  datatype Removal = Removed | Failed(rest: Entry)

  type Remover = (nat, Entry) -> Removal

  /** What a failed removal leaves is a pruned directory under the same name. */
  ghost predicate Honest(rm: Remover) {
    forall k, e :: rm(k, e).Failed? ==>
                     var r := rm(k, e).rest; r.name == e.name && r.node.Dir? && Pruned(r.node, e.node)
  }

  function Without(es: seq<Entry>, name: string): seq<Entry> {
    if es == [] then []
    else if es[0].name == name then Without(es[1..], name)
    else [es[0]] + Without(es[1..], name)
  }

  function Replaced(es: seq<Entry>, e: Entry): seq<Entry> {
    if es == [] then [] else [if es[0].name == e.name then e else es[0]] + Replaced(es[1..], e)
  }

  function Apply(es: seq<Entry>, e: Entry, r: Removal): seq<Entry> {
    match r
    case Removed => Without(es, e.name)
    case Failed(rest) => Replaced(es, rest)
  }

  lemma {:induction false} WithoutIn(es: seq<Entry>, name: string)
    ensures forall e :: e in Without(es, name) <==> e in es && e.name != name
    ensures DistinctNames(es) ==> DistinctNames(Without(es, name))
  {
    if es != [] {
      WithoutIn(es[1..], name);
      assert es == [es[0]] + es[1..];
      if DistinctNames(es) && es[0].name != name {
        var w := Without(es[1..], name);
        forall j | 0 <= j < |w| ensures es[0].name != w[j].name {
          assert w[j] in w && w[j] in es[1..];
        }
      }
    }
  }

  lemma {:induction false} WithoutAbsent(es: seq<Entry>, name: string)
    requires forall e :: e in es ==> e.name != name
    ensures Without(es, name) == es
  {
    if es != [] {
      assert es[0] in es && forall e :: e in es[1..] ==> e in es;
      WithoutAbsent(es[1..], name);
    }
  }

  lemma TailAbsent(es: seq<Entry>)
    requires es != [] && DistinctNames(es)
    ensures DistinctNames(es[1..]) && forall e :: e in es[1..] ==> e.name != es[0].name
  {
  }

  lemma {:induction false} WithoutTotal(es: seq<Entry>, e: Entry)
    requires DistinctNames(es) && e in es
    ensures MeasuredTotal(Without(es, e.name)) == MeasuredTotal(es) - Measured(e.node)
    ensures HiddenTotal(Without(es, e.name)) == HiddenTotal(es) - Hidden(e.node)
  {
    TailAbsent(es);
    if es[0] == e {
      WithoutAbsent(es[1..], e.name);
    } else {
      assert e in es[1..];
      WithoutTotal(es[1..], e);
      assert Without(es, e.name) == [es[0]] + Without(es[1..], e.name);
    }
  }

  lemma {:induction false} ReplacedSpec(es: seq<Entry>, e: Entry, rest: Entry)
    requires DistinctNames(es) && e in es && rest.name == e.name && Pruned(rest.node, e.node)
    ensures MeasuredTotal(Replaced(es, rest)) <= MeasuredTotal(es) && HiddenTotal(Replaced(es, rest)) <= HiddenTotal(es)
    ensures DistinctNames(Replaced(es, rest))
    ensures |Replaced(es, rest)| == |es| && forall i :: 0 <= i < |es| ==> Replaced(es, rest)[i].name == es[i].name
  {
    TailAbsent(es);
    if es[0] == e {
      ReplacedAbsent(es[1..], rest);
      PrunedSize(rest.node, e.node);
      assert Replaced(es, rest) == [rest] + es[1..];
    } else {
      assert e in es[1..];
      ReplacedSpec(es[1..], e, rest);
      assert Replaced(es, rest) == [es[0]] + Replaced(es[1..], rest);
    }
  }

  lemma {:induction false} ReplacedAbsent(es: seq<Entry>, rest: Entry)
    requires forall e :: e in es ==> e.name != rest.name
    ensures Replaced(es, rest) == es
  {
    if es != [] {
      assert es[0] in es && forall e :: e in es[1..] ==> e in es;
      ReplacedAbsent(es[1..], rest);
    }
  }

  /** Entries the cleanup may not touch: registered names and plain files. */
  function Protected(es: seq<Entry>, active: set<string>): seq<Entry> {
    if es == [] then []
    else if es[0].name in active || es[0].node.File? then [es[0]] + Protected(es[1..], active)
    else Protected(es[1..], active)
  }

  lemma {:induction false} ApplyProtects(es: seq<Entry>, e: Entry, r: Removal, active: set<string>)
    requires DistinctNames(es) && e in es && e.name !in active && e.node.Dir?
    requires r.Failed? ==> r.rest.name == e.name && r.rest.node.Dir?
    ensures Protected(Apply(es, e, r), active) == Protected(es, active)
  {
    TailAbsent(es);
    if es[0] == e {
      if r.Removed? {
        WithoutAbsent(es[1..], e.name);
      } else {
        ReplacedAbsent(es[1..], r.rest);
      }
    } else {
      assert e in es[1..];
      ApplyProtects(es[1..], e, r, active);
      assert Apply(es, e, r) == [es[0]] + Apply(es[1..], e, r);
    }
  }

  lemma {:induction false} CandidatesIn(es: seq<Entry>, active: set<string>)
    ensures forall e :: e in Candidates(es, active) <==> e in es && e.name !in active && e.node.Dir?
    ensures DistinctNames(es) ==> DistinctNames(Candidates(es, active))
  {
    if es != [] {
      CandidatesIn(es[1..], active);
      assert es == [es[0]] + es[1..];
      var c := Candidates(es[1..], active);
      if DistinctNames(es) {
        forall j | 0 <= j < |c| ensures es[0].name != c[j].name {
          assert c[j] in c && c[j] in es[1..];
        }
      }
    }
  }

  lemma {:induction false} ProtectedIn(es: seq<Entry>, active: set<string>, e: Entry)
    ensures e in Protected(es, active) <==> e in es && (e.name in active || e.node.File?)
  {
    if es != [] {
      ProtectedIn(es[1..], active, e);
      assert es == [es[0]] + es[1..];
    }
  }

  /** Every entry is registered or a plain file. */
  ghost predicate NothingToEvict(es: seq<Entry>, active: set<string>) {
    forall e :: e in es ==> e.name in active || e.node.File?
  }

  lemma {:induction false} NoCandidates(es: seq<Entry>, active: set<string>)
    ensures Candidates(es, active) == [] <==> NothingToEvict(es, active)
  {
    CandidatesIn(es, active);
    if Candidates(es, active) != [] {
      assert Candidates(es, active)[0] in Candidates(es, active);
    }
  }

  /** An unregistered directory, no younger than any other and older than those listed before it. */
  ghost predicate FirstOldest(es: seq<Entry>, active: set<string>, i: nat)
    requires i < |es|
  {
    && es[i].name !in active && es[i].node.Dir?
    && forall j :: 0 <= j < |es| && es[j].name !in active && es[j].node.Dir? ==>
                     es[i].mtime <= es[j].mtime && (j < i ==> es[i].mtime < es[j].mtime)
  }

  /** The pick is the first of the oldest unregistered directories; there is none only if there is no such directory. */
  lemma {:induction false} OldestIn(es: seq<Entry>, active: set<string>)
    ensures Oldest(es, active).None? <==> NothingToEvict(es, active)
    ensures Oldest(es, active).Some? ==>
              exists i: nat :: i < |es| && es[i] == Oldest(es, active).value && FirstOldest(es, active, i)
  {
    NoCandidates(es, active);
    SortKeeps(Candidates(es, active));
    assert |Sort(Candidates(es, active))| == |multiset(Candidates(es, active))|;
    if Oldest(es, active).Some? {
      var i := FindOldest(es, active);
    }
  }

  lemma {:induction false} FindOldest(es: seq<Entry>, active: set<string>) returns (i: nat)
    requires Oldest(es, active).Some?
    ensures i < |es| && es[i] == Oldest(es, active).value && FirstOldest(es, active, i)
  {
    var x, rest := es[0], es[1..];
    var later := Oldest(rest, active);
    NoCandidates(rest, active);
    if IsCandidate(x, active) && (later.None? || x.mtime <= later.value.mtime) {
      i := 0;
      if later.Some? {
        var k := FindOldest(rest, active);
        FirstBeats(es, active, k);
      } else {
        SortKeeps(Candidates(rest, active));
        assert |Sort(Candidates(rest, active))| == |multiset(Candidates(rest, active))|;
        assert forall j :: 0 < j < |es| ==> es[j] in rest;
      }
    } else {
      var k := FindOldest(rest, active);
      LaterWins(es, active, k);
      i := k + 1;
    }
  }

  lemma FirstBeats(es: seq<Entry>, active: set<string>, k: nat)
    requires es != [] && k < |es[1..]| && FirstOldest(es[1..], active, k) && es[0].mtime <= es[k + 1].mtime
    requires es[0].name !in active && es[0].node.Dir?
    ensures FirstOldest(es, active, 0)
  {
    assert forall j :: 0 < j < |es| ==> es[j] == es[1..][j - 1];
  }

  lemma LaterWins(es: seq<Entry>, active: set<string>, k: nat)
    requires es != [] && k < |es[1..]| && FirstOldest(es[1..], active, k)
    requires es[0].name in active || es[0].node.File? || es[k + 1].mtime < es[0].mtime
    ensures FirstOldest(es, active, k + 1)
  {
    assert forall j :: 0 < j < |es| ==> es[j] == es[1..][j - 1];
  }

  // ---------- the loop ----------

  /** The loop's variables; `stuck` is the break when no candidate is left. */
  datatype Cleanup = Cleanup(entries: seq<Entry>, toFree: int, attempts: nat, removed: seq<Entry>, stuck: bool)

  predicate Running(l: Cleanup) { !l.stuck && l.toFree > 0 && l.attempts < 10 }

  function Round(l: Cleanup, active: set<string>, rm: Remover): Cleanup {
    match Oldest(l.entries, active)
    case None => l.(attempts := l.attempts + 1, stuck := true)
    case Some(e) =>
      var r := rm(l.attempts, e);
      var l' := l.(entries := Apply(l.entries, e, r), attempts := l.attempts + 1);
      if r.Removed? then l'.(toFree := l.toFree - 10 * Measured(e.node), removed := l.removed + [e]) else l'
  }

  /** The loop after `k` rounds, or where it stopped before. */
  function Rounds(l: Cleanup, active: set<string>, rm: Remover, k: nat): Cleanup {
    if k == 0 then l
    else
      var p := Rounds(l, active, rm, k - 1);
      if Running(p) then Round(p, active, rm) else p
  }

  /** The loop as it starts, with `limit` the configured space. */
  function Start(es: seq<Entry>, limit: nat): Cleanup {
    Cleanup(es, 10 * MeasuredTotal(es) - 9 * limit, 0, [], false)
  }

  /** `sizeToFree` never underestimates what the code can measure, whatever removals did. */
  ghost predicate Accounted(l: Cleanup, limit: nat) {
    DistinctNames(l.entries) && 10 * MeasuredTotal(l.entries) <= 9 * limit + l.toFree
  }

  /** Neither the measured nor the hidden bytes have grown. */
  predicate NotGrown(es: seq<Entry>, es': seq<Entry>) {
    MeasuredTotal(es') <= MeasuredTotal(es) && HiddenTotal(es') <= HiddenTotal(es)
  }

  lemma RoundAccounts(l: Cleanup, active: set<string>, rm: Remover, limit: nat)
    requires Honest(rm) && Accounted(l, limit)
    ensures var l' := Round(l, active, rm);
            && Accounted(l', limit) && l'.attempts == l.attempts + 1 && NotGrown(l.entries, l'.entries)
            && Protected(l'.entries, active) == Protected(l.entries, active)
            && (l'.stuck && !l.stuck ==> NothingToEvict(l'.entries, active))
            && (forall e :: e in l'.removed && e !in l.removed ==> e.name !in active && e.node.Dir?)
  {
    OldestIn(l.entries, active);
    match Oldest(l.entries, active)
    case None =>
    case Some(e) =>
      var r := rm(l.attempts, e);
      ApplyProtects(l.entries, e, r, active);
      match r
      case Removed =>
        WithoutIn(l.entries, e.name);
        WithoutTotal(l.entries, e);
      case Failed(rest) =>
        ReplacedSpec(l.entries, e, rest);
  }

  /** Registered names and plain files are still there, and only unregistered directories were removed. */
  ghost predicate Spares(es: seq<Entry>, active: set<string>, left: seq<Entry>, removed: seq<Entry>) {
    && (forall e :: e in es && (e.name in active || e.node.File?) ==> e in left)
    && (forall e :: e in removed ==> e.name !in active && e.node.Dir?)
  }

  lemma {:induction false} ProtectedStay(es: seq<Entry>, es': seq<Entry>, active: set<string>)
    requires Protected(es', active) == Protected(es, active)
    ensures forall e :: e in es && (e.name in active || e.node.File?) ==> e in es'
  {
    forall e | e in es && (e.name in active || e.node.File?) ensures e in es' {
      ProtectedIn(es, active, e);
      ProtectedIn(es', active, e);
    }
  }

  /** What holds after at most `k` rounds from the entries `es`. */
  ghost predicate Sound(es: seq<Entry>, limit: nat, active: set<string>, l: Cleanup, k: nat) {
    && Accounted(l, limit) && NotGrown(es, l.entries)
    && 10 * Total(l.entries) <= 9 * limit + l.toFree + 10 * HiddenTotal(l.entries)
    && l.attempts <= k && l.attempts <= 10 && (Running(l) ==> l.attempts == k)
    && Protected(l.entries, active) == Protected(es, active)
    && (l.stuck ==> NothingToEvict(l.entries, active))
    && Spares(es, active, l.entries, l.removed)
  }

  lemma RoundSound(es: seq<Entry>, limit: nat, active: set<string>, rm: Remover, l: Cleanup, k: nat)
    requires Honest(rm) && Sound(es, limit, active, l, k) && Running(l)
    ensures Sound(es, limit, active, Round(l, active, rm), k + 1)
  {
    RoundAccounts(l, active, rm, limit);
    ProtectedStay(es, Round(l, active, rm).entries, active);
    SizeSplits(Round(l, active, rm).entries);
  }

  /**
   At every loop head, under any mix of successful, failed and partial removals and for any tree:
   the measured size is at most 90% of the limit plus what is still to free, the real size exceeds
   that by no more than the bytes hidden in directories that cannot be listed, and no registered
   name and no plain file has been touched.
   */
  lemma {:induction false} AccountingIsSound(es: seq<Entry>, limit: nat, active: set<string>, rm: Remover, k: nat)
    requires Honest(rm) && DistinctNames(es)
    ensures Sound(es, limit, active, Rounds(Start(es, limit), active, rm, k), k)
  {
    if k == 0 {
      SizeSplits(es);
    } else {
      AccountingIsSound(es, limit, active, rm, k - 1);
      var p := Rounds(Start(es, limit), active, rm, k - 1);
      if Running(p) {
        RoundSound(es, limit, active, rm, p, k - 1);
      }
    }
  }

  /** The loop's account covers the real size at its `k`-th head. */
  predicate CoversReal(l: Cleanup, limit: nat) { 10 * Total(l.entries) <= 9 * limit + l.toFree }

  /** The account covers the real size at every loop head exactly when nothing is hidden to begin with. */
  lemma {:induction false} CoversRealExactly(es: seq<Entry>, limit: nat, active: set<string>, rm: Remover)
    requires Honest(rm) && DistinctNames(es)
    ensures (forall k: nat :: CoversReal(Rounds(Start(es, limit), active, rm, k), limit)) <==> HiddenTotal(es) == 0
  {
    SizeSplits(es);
    assert Rounds(Start(es, limit), active, rm, 0) == Start(es, limit);
    if HiddenTotal(es) == 0 {
      forall k: nat ensures CoversReal(Rounds(Start(es, limit), active, rm, k), limit) {
        AccountingIsSound(es, limit, active, rm, k);
      }
    } else {
      assert !CoversReal(Rounds(Start(es, limit), active, rm, 0), limit);
    }
  }

  /** Small enough up to hidden bytes, or nothing left to evict, or ten attempts made. */
  ghost predicate Finished(l: Cleanup, limit: nat, active: set<string>) {
    || (10 * MeasuredTotal(l.entries) <= 9 * limit && 10 * Total(l.entries) <= 9 * limit + 10 * HiddenTotal(l.entries))
    || NothingToEvict(l.entries, active)
    || l.attempts == 10
  }

  /** The loop is over after ten rounds, with its purpose reached or no way to go on. */
  lemma CleanupExit(es: seq<Entry>, limit: nat, active: set<string>, rm: Remover)
    requires Honest(rm) && DistinctNames(es)
    ensures var l := Rounds(Start(es, limit), active, rm, 10);
            && !Running(l) && Finished(l, limit, active)
            && NotGrown(es, l.entries) && Protected(l.entries, active) == Protected(es, active)
            && Spares(es, active, l.entries, l.removed)
  {
    AccountingIsSound(es, limit, active, rm, 10);
  }

  /** The exit as the real sizes would have it. */
  ghost predicate RealDone(l: Cleanup, limit: nat, active: set<string>) {
    10 * Total(l.entries) <= 9 * limit || NothingToEvict(l.entries, active) || l.attempts == 10
  }

  /** Without hidden bytes it is the real size that ends at 90% or less, unless the loop could not go on. */
  lemma RealExit(es: seq<Entry>, limit: nat, active: set<string>, rm: Remover)
    requires Honest(rm) && DistinctNames(es) && HiddenTotal(es) == 0
    ensures var l := Rounds(Start(es, limit), active, rm, 10);
            RealDone(l, limit, active)
  {
    CleanupExit(es, limit, active, rm);
    AccountingIsSound(es, limit, active, rm, 10);
  }

  /** With hidden bytes the loop may stop early: over the limit, a candidate left, one attempt made. */
  lemma HiddenBytesStopEarly(a: Entry, b: Entry, rm: Remover)
    requires a == Entry("a", 1, Dir([Entry("f", 0, File(100, false))], false, false))
    requires b == Entry("b", 2, Dir([Entry("f", 0, File(100, false))], false, true))
    requires rm(0, a).Removed?
    ensures var l := Rounds(Start([a, b], 100), {}, rm, 10);
            l.entries == [b] && 10 * Total(l.entries) > 9 * 100 && Candidates(l.entries, {}) == [b] && l.attempts == 1
  {
    var es := [a, b];
    OneFile(a.node);
    OneFile(b.node);
    assert es[1..] == [b] && [b][1..] == [];
    assert MeasuredTotal(es) == 100;
    assert Candidates([b], {}) == [b];
    assert Candidates(es, {}) == es;
    assert Sort([b]) == [b];
    assert Sort(es) == es;
    assert Without([b], "a") == [b];
    assert Without(es, "a") == [b];
    var start := Start(es, 100);
    var l := Cleanup([b], 100 - 1000, 1, [a], false);
    assert start.removed + [a] == [a];
    assert Round(start, {}, rm) == l;
    assert Rounds(start, {}, rm, 0) == start;
    assert Rounds(start, {}, rm, 1) == l;
    StopsThere(start, {}, rm, 1, 10);
  }

  lemma OneFile(d: Node)
    requires d.Dir? && d.entries == [Entry("f", 0, File(100, false))]
    ensures Size(d) == 100 && Measured(d) == if d.unreadable then 0 else 100
  {
    var es := d.entries;
    assert es[0].node == File(100, false) && es[1..] == [];
    assert Total(es) == Size(es[0].node) + Total(es[1..]);
    assert MeasuredTotal(es) == Measured(es[0].node) + MeasuredTotal(es[1..]);
  }

  // ---------- one round ----------

  lemma {:induction false} WithoutAt(es: seq<Entry>, i: nat)
    requires DistinctNames(es) && i < |es|
    ensures Without(es, es[i].name) == es[..i] + es[i + 1..]
  {
    TailAbsent(es);
    if i == 0 {
      WithoutAbsent(es[1..], es[0].name);
    } else {
      WithoutAt(es[1..], i - 1);
      assert es[..i] == [es[0]] + es[1..][..i - 1];
      assert es[1..][i..] == es[i + 1..];
      assert es[i] in es[1..];
    }
  }

  lemma {:induction false} ReplacedAt(es: seq<Entry>, i: nat, e: Entry)
    requires DistinctNames(es) && i < |es| && e.name == es[i].name
    ensures Replaced(es, e) == es[i := e]
  {
    TailAbsent(es);
    if i == 0 {
      ReplacedAbsent(es[1..], e);
    } else {
      ReplacedAt(es[1..], i - 1, e);
      assert es[i] in es[1..];
      assert es[i := e] == [es[0]] + es[1..][i - 1 := e];
    }
  }

  /** What one round does to the loop's variables, given the position of its pick. */
  ghost predicate Tried(l: Cleanup, l': Cleanup, i: nat, r: Removal)
    requires i < |l.entries|
  {
    match r
    case Removed =>
      && l'.entries == l.entries[..i] + l.entries[i + 1..] && l'.removed == l.removed + [l.entries[i]]
      && l'.toFree == l.toFree - 10 * Measured(l.entries[i].node)
    case Failed(rest) =>
      l'.entries == l.entries[i := rest] && l'.removed == l.removed && l'.toFree == l.toFree
  }

  /**
   A round tries the first of the oldest unregistered directories. If it is removed, its measured size
   is written off; if not, what is left of it stays in its place and nothing is written off.
   */
  lemma {:induction false} RoundTriesOldest(l: Cleanup, active: set<string>, rm: Remover)
    requires Honest(rm) && DistinctNames(l.entries) && !NothingToEvict(l.entries, active)
    ensures exists i: nat :: i < |l.entries| && FirstOldest(l.entries, active, i) &&
                             Tried(l, Round(l, active, rm), i, rm(l.attempts, l.entries[i]))
  {
    OldestIn(l.entries, active);
    var i := FindOldest(l.entries, active);
    var e := l.entries[i];
    match rm(l.attempts, e)
    case Removed => WithoutAt(l.entries, i);
    case Failed(rest) => ReplacedAt(l.entries, i, rest);
  }

  // ---------- a directory that cannot be removed ----------

  lemma {:induction false} ReplacedSelf(es: seq<Entry>, e: Entry)
    requires DistinctNames(es) && e in es
    ensures Replaced(es, e) == es
  {
    TailAbsent(es);
    if es[0] == e {
      ReplacedAbsent(es[1..], e);
    } else {
      assert e in es[1..];
      ReplacedSelf(es[1..], e);
    }
  }

  lemma {:induction false} RoundBlocked(l: Cleanup, active: set<string>, rm: Remover, e: Entry)
    requires DistinctNames(l.entries) && Oldest(l.entries, active) == Some(e) && rm(l.attempts, e) == Failed(e)
    ensures Round(l, active, rm) == l.(attempts := l.attempts + 1)
  {
    PickIsListed(l.entries, active);
    ReplacedSelf(l.entries, e);
  }

  lemma {:induction false} PickIsListed(es: seq<Entry>, active: set<string>)
    ensures Oldest(es, active).Some? ==> Oldest(es, active).value in es
  {
    OldestIn(es, active);
  }

  lemma {:induction false} RoundsBlocked(start: Cleanup, active: set<string>, rm: Remover, e: Entry, k: nat)
    requires DistinctNames(start.entries) && Oldest(start.entries, active) == Some(e)
    requires forall j :: rm(j, e) == Failed(e)
    requires start.toFree > 0 && !start.stuck && start.attempts == 0 && k <= 10
    ensures Rounds(start, active, rm, k) == start.(attempts := k)
  {
    if k > 0 {
      RoundsBlocked(start, active, rm, e, k - 1);
      RoundBlocked(start.(attempts := k - 1), active, rm, e);
    }
  }

  /** If the oldest directory never yields, all ten attempts go to it and nothing is freed. */
  lemma OldestBlocks(es: seq<Entry>, limit: nat, active: set<string>, rm: Remover, e: Entry, k: nat)
    requires DistinctNames(es) && Oldest(es, active) == Some(e) && forall j :: rm(j, e) == Failed(e)
    requires 10 * MeasuredTotal(es) > 9 * limit && k <= 10
    ensures Rounds(Start(es, limit), active, rm, k) == Start(es, limit).(attempts := k)
  {
    RoundsBlocked(Start(es, limit), active, rm, e, k);
  }

  // ---------- refinement of "sort once, take a prefix" ----------

  /** Dropping the head of the sorted list is sorting what is left without it. */
  lemma {:induction false} SortDropsHead(es: seq<Entry>)
    requires es != [] && DistinctNames(es)
    ensures Sort(es) != [] && Sort(es)[0] in es
    ensures Sort(Without(es, Sort(es)[0].name)) == Sort(es)[1..]
  {
    var x, rest := es[0], es[1..];
    TailAbsent(es);
    var t := Sort(rest);
    if rest != [] {
      SortDropsHead(rest);
    }
    if t == [] || x.mtime <= t[0].mtime {
      WithoutAbsent(rest, x.name);
    } else {
      var w := Without(rest, t[0].name);
      assert Without(es, t[0].name) == [x] + w;
      assert ([x] + w)[1..] == w;
    }
  }

  lemma {:induction false} CandidatesWithout(es: seq<Entry>, active: set<string>, name: string)
    ensures Candidates(Without(es, name), active) == Without(Candidates(es, active), name)
  {
    if es != [] {
      CandidatesWithout(es[1..], active, name);
    }
  }

  /** The eviction order fixed before the loop starts. */
  function Order(es: seq<Entry>, active: set<string>): seq<Entry> { Sort(Candidates(es, active)) }

  /** All unregistered directories, by time. */
  lemma {:induction false} OrderSpec(es: seq<Entry>, active: set<string>)
    ensures Sorted(Order(es, active))
    ensures forall e :: e in Order(es, active) <==> e in es && e.name !in active && e.node.Dir?
  {
    var c := Candidates(es, active);
    CandidatesIn(es, active);
    SortSorted(c);
    SortKeeps(c);
    assert forall e :: e in Sort(c) <==> e in multiset(Sort(c));
    assert forall e :: e in c <==> e in multiset(c);
  }

  lemma OrderAdvances(es: seq<Entry>, active: set<string>)
    requires DistinctNames(es) && Order(es, active) != []
    ensures var e := Order(es, active)[0];
            e in es && Oldest(es, active) == Some(e) && Order(Without(es, e.name), active) == Order(es, active)[1..]
  {
    CandidatesIn(es, active);
    var c := Candidates(es, active);
    assert c != [];
    SortDropsHead(c);
    CandidatesWithout(es, active, Sort(c)[0].name);
  }

  /** Every removal attempted so far has succeeded. */
  predicate AllSucceeded(l: Cleanup) { l.attempts == |l.removed| + (if l.stuck then 1 else 0) }

  /** Removing the first `i` directories in order is enough, or all there is, or all that is allowed. */
  predicate Enough(es: seq<Entry>, limit: nat, order: seq<Entry>, i: nat)
    requires i <= |order|
  {
    10 * (MeasuredTotal(es) - MeasuredTotal(order[..i])) <= 9 * limit || i == |order| || i == 10
  }

  /** The loop has so far taken a prefix of the order, and never more than was needed. */
  ghost predicate TookPrefix(es: seq<Entry>, limit: nat, active: set<string>, l: Cleanup) {
    var order, i := Order(es, active), |l.removed|;
    && i <= |order| && l.removed == order[..i]
    && Order(l.entries, active) == order[i..]
    && DistinctNames(l.entries)
    && MeasuredTotal(l.entries) == MeasuredTotal(es) - MeasuredTotal(l.removed)
    && HiddenTotal(l.entries) == HiddenTotal(es) - HiddenTotal(l.removed)
    && l.toFree == 10 * MeasuredTotal(l.entries) - 9 * limit
    && l.attempts == i + (if l.stuck then 1 else 0)
    && (l.stuck ==> i == |order|)
    && (forall e :: e in l.entries <==> e in es && e !in l.removed)
    && (forall j: nat :: j < i ==> !Enough(es, limit, order, j))
  }

  lemma RoundTakesNext(es: seq<Entry>, limit: nat, active: set<string>, rm: Remover, l: Cleanup)
    requires TookPrefix(es, limit, active, l) && Running(l) && AllSucceeded(Round(l, active, rm))
    ensures TookPrefix(es, limit, active, Round(l, active, rm))
  {
    var order, i := Order(es, active), |l.removed|;
    if i < |order| {
      OrderAdvances(l.entries, active);
      var e := order[i];
      assert order[i..][0] == e && order[i..][1..] == order[i + 1..];
      assert order[..i + 1] == order[..i] + [e];
      WithoutTotal(l.entries, e);
      WithoutIn(l.entries, e.name);
      TotalAppend(order[..i], [e]);
      assert MeasuredTotal([e]) == Measured(e.node) && HiddenTotal([e]) == Hidden(e.node);
      SameName(l.entries, e);
      var l' := Round(l, active, rm);
      assert l'.removed == order[..i + 1];
      forall j: nat | j < i + 1 ensures !Enough(es, limit, order, j) {
        assert j == i ==> order[..j] == l.removed;
      }
    } else {
      assert order[i..] == [];
    }
  }

  lemma SameName(es: seq<Entry>, e: Entry)
    requires DistinctNames(es) && e in es
    ensures forall f :: f in es && f.name == e.name ==> f == e
  {
  }

  lemma {:induction false} RoundsCount(start: Cleanup, active: set<string>, rm: Remover, k: nat)
    requires start.attempts == |start.removed| == 0 && !start.stuck
    ensures var l := Rounds(start, active, rm, k);
            && |l.removed| + (if l.stuck then 1 else 0) <= l.attempts <= k
            && (Running(l) ==> l.attempts == k)
  {
    if k > 0 {
      RoundsCount(start, active, rm, k - 1);
    }
  }

  lemma StartTookPrefix(es: seq<Entry>, limit: nat, active: set<string>)
    requires DistinctNames(es)
    ensures TookPrefix(es, limit, active, Start(es, limit))
  {
    var order := Order(es, active);
    assert order[..0] == [] && order[0..] == order;
  }

  lemma EarlierSucceeded(l: Cleanup, active: set<string>, rm: Remover)
    requires Running(l) && |l.removed| <= l.attempts && AllSucceeded(Round(l, active, rm))
    ensures AllSucceeded(l)
  {
  }

  lemma {:induction false} RoundsTakePrefix(
    es: seq<Entry>, limit: nat, active: set<string>, rm: Remover, start: Cleanup, k: nat)
    requires start.attempts == |start.removed| == 0 && !start.stuck
    requires TookPrefix(es, limit, active, start) && AllSucceeded(Rounds(start, active, rm, k))
    ensures TookPrefix(es, limit, active, Rounds(start, active, rm, k))
    decreases k
  {
    if k > 0 {
      var p := Rounds(start, active, rm, k - 1);
      if Running(p) {
        RoundsCount(start, active, rm, k - 1);
        EarlierSucceeded(p, active, rm);
        RoundsTakePrefix(es, limit, active, rm, start, k - 1);
        RoundTakesNext(es, limit, active, rm, p);
      } else {
        RoundsTakePrefix(es, limit, active, rm, start, k - 1);
      }
    }
  }

  /**
   A cleanup in which every attempted removal succeeds refines the one-shot specification: although
   it lists and sorts again every round, it removes exactly the shortest prefix of the inactive
   directories, sorted once by time, that is enough, and every other entry stays.
   */
  lemma {:induction false} EvictsShortestPrefix(es: seq<Entry>, limit: nat, active: set<string>, rm: Remover)
    requires DistinctNames(es) && AllSucceeded(Rounds(Start(es, limit), active, rm, 10))
    ensures var l := Rounds(Start(es, limit), active, rm, 10);
            var order := Order(es, active);
            && |l.removed| <= |order| && l.removed == order[..|l.removed|]
            && Enough(es, limit, order, |l.removed|)
            && (forall j: nat :: j < |l.removed| ==> !Enough(es, limit, order, j))
            && (forall e :: e in l.entries <==> e in es && e !in l.removed)
            && Sorted(order) && (forall e :: e in order <==> e in es && e.name !in active && e.node.Dir?)
  {
    OrderSpec(es, active);
    StartTookPrefix(es, limit, active);
    RoundsTakePrefix(es, limit, active, rm, Start(es, limit), 10);
    RoundsCount(Start(es, limit), active, rm, 10);
  }

  /** A remover that never fails makes every attempt succeed. */
  lemma {:induction false} SureRemover(es: seq<Entry>, limit: nat, active: set<string>, rm: Remover, k: nat)
    requires forall j, e :: rm(j, e).Removed?
    ensures AllSucceeded(Rounds(Start(es, limit), active, rm, k))
  {
    if k > 0 {
      SureRemover(es, limit, active, rm, k - 1);
    }
  }

  /** Removing the first `i` directories in order is enough for the real sizes. */
  predicate EnoughReal(es: seq<Entry>, limit: nat, order: seq<Entry>, i: nat)
    requires i <= |order|
  {
    10 * (Total(es) - Total(order[..i])) <= 9 * limit || i == |order| || i == 10
  }

  /** The shortest prefix that is enough for the measured sizes. */
  ghost predicate Shortest(es: seq<Entry>, limit: nat, order: seq<Entry>, m: nat) {
    m <= |order| && Enough(es, limit, order, m) && forall j: nat :: j < m ==> !Enough(es, limit, order, j)
  }

  /**
   With hidden bytes and successful removals, the exit holds of the real sizes if and only if the
   shortest prefix that is enough for the measured sizes is enough for the real ones.
   */
  lemma {:induction false} RealExitExactly(es: seq<Entry>, limit: nat, active: set<string>, rm: Remover, m: nat)
    requires DistinctNames(es) && AllSucceeded(Rounds(Start(es, limit), active, rm, 10))
    requires Shortest(es, limit, Order(es, active), m)
    ensures RealDone(Rounds(Start(es, limit), active, rm, 10), limit, active) <==>
            EnoughReal(es, limit, Order(es, active), m)
  {
    var l := Rounds(Start(es, limit), active, rm, 10);
    EvictsShortestPrefix(es, limit, active, rm);
    assert |l.removed| == m;
    StartTookPrefix(es, limit, active);
    RoundsTakePrefix(es, limit, active, rm, Start(es, limit), 10);
    RoundsCount(Start(es, limit), active, rm, 10);
    PrefixExit(es, limit, active, l);
  }

  lemma PrefixExit(es: seq<Entry>, limit: nat, active: set<string>, l: Cleanup)
    requires TookPrefix(es, limit, active, l) && l.attempts <= 10
    ensures RealDone(l, limit, active) <==> EnoughReal(es, limit, Order(es, active), |l.removed|)
  {
    SizeSplits(es);
    SizeSplits(l.entries);
    SizeSplits(l.removed);
    NoCandidates(l.entries, active);
    SortKeeps(Candidates(l.entries, active));
    assert |Order(l.entries, active)| == |multiset(Candidates(l.entries, active))|;
  }

  lemma {:induction false} NothingHiddenIn(es: seq<Entry>, e: Entry)
    requires HiddenTotal(es) == 0 && e in es
    ensures Hidden(e.node) == 0
  {
    if e != es[0] {
      assert e in es[1..];
      NothingHiddenIn(es[1..], e);
    }
  }

  lemma {:induction false} NothingHidden(es: seq<Entry>)
    requires forall e :: e in es ==> Hidden(e.node) == 0
    ensures HiddenTotal(es) == 0
  {
    if es != [] {
      assert es[0] in es && forall e :: e in es[1..] ==> e in es;
      NothingHidden(es[1..]);
    }
  }

  /** Without hidden bytes the shortest sufficient prefix is the one for the real sizes. */
  lemma {:induction false} EnoughIsReal(es: seq<Entry>, limit: nat, active: set<string>, i: nat)
    requires HiddenTotal(es) == 0 && i <= |Order(es, active)|
    ensures Enough(es, limit, Order(es, active), i) <==> EnoughReal(es, limit, Order(es, active), i)
  {
    var order := Order(es, active);
    CandidatesIn(es, active);
    SortKeeps(Candidates(es, active));
    forall e | e in order[..i] ensures Hidden(e.node) == 0 {
      assert e in order && e in multiset(order);
      assert e in multiset(Candidates(es, active));
      NothingHiddenIn(es, e);
    }
    NothingHidden(order[..i]);
    SizeSplits(order[..i]);
    SizeSplits(es);
  }

  // ---------- the object ----------

  const DEFAULT_LIMIT := 10737418240

  class DiskManager {
    var entries: seq<Entry>
    var active: set<string>
    var maxDiskSpace: int

    method GetOldestInactiveTorrent() returns (oldest: Option<Entry>)
      ensures oldest == Oldest(entries, active) && (oldest.None? <==> NothingToEvict(entries, active))
      ensures oldest.Some? ==>
                exists i: nat :: i < |entries| && entries[i] == oldest.value && FirstOldest(entries, active, i)
    {
      var dirStats := [];
      var i := 0;
      while i < |entries|
        invariant 0 <= i <= |entries|
        invariant dirStats + Candidates(entries[i..], active) == Candidates(entries, active)
      {
        if IsCandidate(entries[i], active) {
          dirStats := dirStats + [entries[i]];
        }
        i := i + 1;
      }
      assert dirStats + Candidates(entries[i..], active) == dirStats;
      var sorted := Sort(dirStats);
      oldest := if |sorted| > 0 then Some(sorted[0]) else None;
      OldestIn(entries, active);
    }

    /** One round of the loop: pick, measure, remove; a failed removal frees nothing. */
    method Attempt(attempts: nat, rm: Remover, ghost l: Cleanup) returns (stuck: bool, evicted: seq<Entry>, freed: nat)
      requires l.entries == entries && l.attempts == attempts && !l.stuck
      modifies this`entries
      ensures Round(l, active, rm) ==
              Cleanup(entries, l.toFree - 10 * freed, attempts + 1, l.removed + evicted, stuck)
    {
      stuck, evicted, freed := false, [], 0;
      var oldest := GetOldestInactiveTorrent();
      OldestIn(entries, active);
      if oldest.None? {
        stuck := true;
        assert l.removed + evicted == l.removed;
        return;
      }
      var e := oldest.value;
      var torrentSize := GetDirSize(e.node);
      var r := rm(attempts, e);
      entries := Apply(entries, e, r);
      if r.Removed? {
        freed := torrentSize;
        evicted := [e];
      } else {
        assert l.removed + evicted == l.removed;
      }
    }

    /**
     `performCleanup`: a limit that is not positive is replaced by the default; below the limit nothing
     happens; otherwise the loop runs to its end.
     */
    method PerformCleanup(rm: Remover) returns (removed: seq<Entry>, attempts: nat)
      requires Honest(rm) && DistinctNames(entries)
      modifies this`entries, this`maxDiskSpace
      ensures maxDiskSpace == if old(maxDiskSpace) <= 0 then DEFAULT_LIMIT else old(maxDiskSpace)
      ensures MeasuredTotal(old(entries)) < maxDiskSpace ==> entries == old(entries) && removed == [] && attempts == 0
      ensures MeasuredTotal(old(entries)) >= maxDiskSpace ==>
                var l := Rounds(Start(old(entries), maxDiskSpace), active, rm, 10);
                && entries == l.entries && removed == l.removed && attempts == l.attempts
                && Finished(l, maxDiskSpace, active)
      ensures Protected(entries, active) == Protected(old(entries), active)
      ensures Spares(old(entries), active, entries, removed)
      ensures NotGrown(old(entries), entries)
    {
      removed, attempts := [], 0;
      var currentSize := GetDirSize(Dir(entries, false, false));
      if maxDiskSpace <= 0 {
        maxDiskSpace := DEFAULT_LIMIT;
      }
      if currentSize < maxDiskSpace { return; }

      ghost var start := Start(entries, maxDiskSpace);
      removed, attempts := Evict(10 * currentSize - 9 * maxDiskSpace, rm, start);
      CleanupExit(old(entries), maxDiskSpace, active, rm);
    }

    /** The loop of `performCleanup`, from the state `start`. */
    method Evict(size: int, rm: Remover, ghost start: Cleanup) returns (removed: seq<Entry>, attempts: nat)
      requires start == Cleanup(entries, size, 0, [], false)
      modifies this`entries
      ensures var l := Rounds(start, active, rm, 10);
              entries == l.entries && removed == l.removed && attempts == l.attempts
    {
      removed, attempts := [], 0;
      var sizeToFree, stuck := size, false;
      while !stuck && sizeToFree > 0 && attempts < 10
        invariant 0 <= attempts <= 10
        invariant Cleanup(entries, sizeToFree, attempts, removed, stuck) == Rounds(start, active, rm, attempts)
        decreases 10 - attempts
      {
        ghost var l := Cleanup(entries, sizeToFree, attempts, removed, stuck);
        var evicted, freed;
        stuck, evicted, freed := Attempt(attempts, rm, l);
        attempts, removed, sizeToFree := attempts + 1, removed + evicted, sizeToFree - 10 * freed;
      }
      StopsThere(start, active, rm, attempts, 10);
    }

    /** `recursiveDelete` of a top-level path: a missing path is fine, a plain file throws. */
    method DeletePath(name: string) returns (threw: bool)
      modifies this`entries
      ensures match Lookup(old(entries), name)
              case None => !threw && entries == old(entries)
              case Some(k) =>
                if old(entries)[k].node.File? then threw && entries == old(entries)
                else threw == !Deletable(old(entries)[k].node) && entries == After(old(entries), k)
    {
      var found := Lookup(entries, name);
      if found.None? { return false; }
      var k := found.value;
      if entries[k].node.File? { return true; }
      DeleteOutcome(entries[k].node);
      var r := RecursiveDelete(entries[k].node);
      match r {
        case Gone => entries := entries[..k] + entries[k + 1..];
        case Threw(rest) => entries := entries[k := entries[k].(node := rest)];
      }
      return r.Threw?;
    }
  }

  /** The position of the entry with a given name. */
  function Lookup(es: seq<Entry>, name: string): (k: Option<nat>)
    ensures k.Some? ==> k.value < |es| && es[k.value].name == name
    ensures k.None? ==> forall e :: e in es ==> e.name != name
  {
    if es == [] then None
    else if es[0].name == name then Some(0)
    else
      var k := Lookup(es[1..], name);
      if k.None? then None else Some(k.value + 1)
  }

  lemma {:induction false} StopsThere(l: Cleanup, active: set<string>, rm: Remover, k: nat, n: nat)
    requires k <= n && !Running(Rounds(l, active, rm, k))
    ensures Rounds(l, active, rm, n) == Rounds(l, active, rm, k)
  {
    if k < n {
      StopsThere(l, active, rm, k, n - 1);
    }
  }
}
