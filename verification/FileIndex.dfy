/**
 The file rows of a torrent: progress updates that repair the `index` column as they go, and the
 selection column that outlives a restart. Rows are listed in the stable order in which the
 database returns them.
 */
module FileIndex {
  import opened Text

  datatype Row = Row(index: int, progress: real, selected: bool)

  // ---------- one update ----------

  /** `files.find(f => f.index === i)`: the position of the first match. */
  function Find(rows: seq<Row>, i: int): (k: Option<nat>)
    ensures k.Some? ==> k.value < |rows| && rows[k.value].index == i
    ensures k.Some? ==> forall j :: 0 <= j < k.value ==> rows[j].index != i
    ensures k.None? ==> forall j :: 0 <= j < |rows| ==> rows[j].index != i
  {
    if rows == [] then None
    else if rows[0].index == i then Some(0)
    else
      var k := Find(rows[1..], i);
      if k.None? then None else Some(k.value + 1)
  }

  /** No row carries index `i`, but there is a row at position `i`. */
  predicate Repairs(rows: seq<Row>, i: nat) { Find(rows, i).None? && i < |rows| }

  /** The position an update for file `i` writes to. */
  function Target(rows: seq<Row>, i: nat): Option<nat> { if Repairs(rows, i) then Some(i) else Find(rows, i) }

  function Update(rows: seq<Row>, i: nat, p: real): seq<Row> {
    match Find(rows, i)
    case Some(k) => rows[k := rows[k].(progress := p)]
    case None => if i < |rows| then rows[i := rows[i].(progress := p, index := i)] else rows
  }

  // ---------- a pass over the files ----------

  function Distance(p: real, q: real): real { if p < q then q - p else p - q }

  /** The nearest value from 0 to 1. */
  function Clamp(p: real): (q: real)
    ensures 0.0 <= q <= 1.0 && forall x: real :: 0.0 <= x <= 1.0 ==> Distance(p, q) <= Distance(p, x)
  {
    if p < 0.0 then 0.0 else if p > 1.0 then 1.0 else p
  }

  function Pass(rows: seq<Row>, ps: seq<real>): seq<Row> {
    if ps == [] then rows
    else Update(Pass(rows, ps[..|ps| - 1]), |ps| - 1, Clamp(ps[|ps| - 1]))
  }

  function AsNat(b: bool): nat { if b then 1 else 0 }

  /** How many index writes a pass makes. */
  function PassRepairs(rows: seq<Row>, ps: seq<real>): nat {
    if ps == [] then 0
    else PassRepairs(rows, ps[..|ps| - 1]) + AsNat(Repairs(Pass(rows, ps[..|ps| - 1]), |ps| - 1))
  }

  /** How often a pass writes to the row at position `k`. */
  function PassWrites(rows: seq<Row>, ps: seq<real>, k: nat): nat {
    if ps == [] then 0
    else PassWrites(rows, ps[..|ps| - 1], k) + AsNat(Target(Pass(rows, ps[..|ps| - 1]), |ps| - 1) == Some(k))
  }

  function Passes(rows: seq<Row>, pss: seq<seq<real>>): seq<Row> {
    if pss == [] then rows else Pass(Passes(rows, pss[..|pss| - 1]), pss[|pss| - 1])
  }

  function TotalRepairs(rows: seq<Row>, pss: seq<seq<real>>): nat {
    if pss == [] then 0
    else TotalRepairs(rows, pss[..|pss| - 1]) + PassRepairs(Passes(rows, pss[..|pss| - 1]), pss[|pss| - 1])
  }

  // ---------- the potential: rows that carry their own position ----------

  function Fixed(rows: seq<Row>, n: nat): (f: nat)
    requires n <= |rows|
    ensures f <= n
  {
    if n == 0 then 0 else Fixed(rows, n - 1) + AsNat(rows[n - 1].index == n - 1)
  }

  lemma {:induction false} FixedCongruent(rows: seq<Row>, rows': seq<Row>, n: nat)
    requires n <= |rows| == |rows'|
    requires forall k :: 0 <= k < n ==> (rows[k].index == k <==> rows'[k].index == k)
    ensures Fixed(rows', n) == Fixed(rows, n)
  {
    if n > 0 {
      FixedCongruent(rows, rows', n - 1);
    }
  }

  lemma {:induction false} FixedOneMore(rows: seq<Row>, rows': seq<Row>, i: nat, n: nat)
    requires i < n <= |rows| == |rows'|
    requires rows[i].index != i && rows'[i].index == i
    requires forall k :: 0 <= k < n && k != i ==> rows'[k].index == rows[k].index
    ensures Fixed(rows', n) == Fixed(rows, n) + 1
  {
    if i == n - 1 {
      FixedCongruent(rows, rows', i);
    } else {
      FixedOneMore(rows, rows', i, n - 1);
    }
  }

  /** A repair gains exactly one fixed row and no update loses one. */
  lemma UpdateGains(rows: seq<Row>, i: nat, p: real)
    ensures |Update(rows, i, p)| == |rows|
    ensures Fixed(Update(rows, i, p), |rows|) == Fixed(rows, |rows|) + AsNat(Repairs(rows, i))
  {
    if Repairs(rows, i) {
      FixedOneMore(rows, Update(rows, i, p), i, |rows|);
    } else {
      FixedCongruent(rows, Update(rows, i, p), |rows|);
    }
  }

  lemma {:induction false} PassGains(rows: seq<Row>, ps: seq<real>)
    ensures |Pass(rows, ps)| == |rows|
    ensures Fixed(Pass(rows, ps), |rows|) == Fixed(rows, |rows|) + PassRepairs(rows, ps)
  {
    if ps != [] {
      PassGains(rows, ps[..|ps| - 1]);
      UpdateGains(Pass(rows, ps[..|ps| - 1]), |ps| - 1, Clamp(ps[|ps| - 1]));
    }
  }

  /** Over any number of passes the index writes are exactly the fixed rows gained: at most one a row, ever. */
  lemma {:induction false} RepairsAreBounded(rows: seq<Row>, pss: seq<seq<real>>)
    ensures |Passes(rows, pss)| == |rows|
    ensures TotalRepairs(rows, pss) == Fixed(Passes(rows, pss), |rows|) - Fixed(rows, |rows|)
    ensures TotalRepairs(rows, pss) <= |rows|
  {
    if pss != [] {
      RepairsAreBounded(rows, pss[..|pss| - 1]);
      PassGains(Passes(rows, pss[..|pss| - 1]), pss[|pss| - 1]);
    }
  }

  // ---------- a quiet pass means a permutation ----------

  ghost predicate SameIndices(rows: seq<Row>, rows': seq<Row>) {
    |rows'| == |rows| && forall k :: 0 <= k < |rows| ==> rows'[k].index == rows[k].index
  }

  /** Some row carries index `i`. */
  predicate Carried(rows: seq<Row>, i: int) { Find(rows, i).Some? }

  /** The indices are 0..n-1, each once. */
  ghost predicate Permuted(rows: seq<Row>) {
    && (forall j, k :: 0 <= j < k < |rows| ==> rows[j].index != rows[k].index)
    && (forall i: nat :: i < |rows| ==> Carried(rows, i))
  }

  lemma {:induction false} QuietPass(rows: seq<Row>, ps: seq<real>)
    requires PassRepairs(rows, ps) == 0
    ensures SameIndices(rows, Pass(rows, ps))
    ensures forall i: nat :: i < |ps| && i < |rows| ==> Carried(rows, i)
  {
    if ps != [] {
      var mid := Pass(rows, ps[..|ps| - 1]);
      QuietPass(rows, ps[..|ps| - 1]);
      assert !Repairs(mid, |ps| - 1);
      assert Carried(mid, |ps| - 1) ==> Carried(rows, |ps| - 1);
    }
  }

  /** The indices the first `n` rows carry. */
  ghost function Indices(rows: seq<Row>, n: nat): set<int>
    requires n <= |rows|
  {
    if n == 0 then {} else Indices(rows, n - 1) + {rows[n - 1].index}
  }

  lemma {:induction false} IndicesHold(rows: seq<Row>, n: nat, k: nat)
    requires k < n <= |rows|
    ensures rows[k].index in Indices(rows, n)
  {
    if k < n - 1 {
      IndicesHold(rows, n - 1, k);
    }
  }

  lemma {:induction false} FewIndices(rows: seq<Row>, n: nat)
    requires n <= |rows|
    ensures |Indices(rows, n)| <= n
    ensures |Indices(rows, n)| == n ==> forall j, k :: 0 <= j < k < n ==> rows[j].index != rows[k].index
  {
    if n > 0 {
      FewIndices(rows, n - 1);
      forall j | 0 <= j < n - 1 ensures rows[j].index in Indices(rows, n - 1) {
        IndicesHold(rows, n - 1, j);
      }
    }
  }

  lemma {:induction false} CoversCount(v: set<int>, n: nat)
    requires forall i: nat :: i < n ==> i in v
    ensures |v| >= n
  {
    if n > 0 {
      CoversCount(v - {n - 1}, n - 1);
      assert |v| == |v - {n - 1}| + 1;
    }
  }

  lemma AllCovered(rows: seq<Row>)
    requires forall i: nat :: i < |rows| ==> Carried(rows, i)
    ensures forall i: nat :: i < |rows| ==> i in Indices(rows, |rows|)
  {
    forall i: nat | i < |rows| ensures i in Indices(rows, |rows|) {
      assert Carried(rows, i);
      IndicesHold(rows, |rows|, Find(rows, i).value);
    }
  }

  /** n rows among which every index below n occurs carry each of them once. */
  lemma Pigeonhole(rows: seq<Row>)
    requires forall i: nat :: i < |rows| ==> Carried(rows, i)
    ensures Permuted(rows)
  {
    AllCovered(rows);
    CoversCount(Indices(rows, |rows|), |rows|);
    FewIndices(rows, |rows|);
  }

  lemma PermutedSame(rows: seq<Row>, rows': seq<Row>)
    requires Permuted(rows) && SameIndices(rows, rows')
    ensures Permuted(rows')
  {
    forall i: nat | i < |rows'| ensures Carried(rows', i) {
      assert Carried(rows, i);
      assert rows'[Find(rows, i).value].index == i;
    }
  }

  lemma IdentityPermuted(rows: seq<Row>)
    requires forall k :: 0 <= k < |rows| ==> rows[k].index == k
    ensures Permuted(rows)
  {
    forall i: nat | i < |rows| ensures Carried(rows, i) {
      assert rows[i].index == i;
    }
  }

  /** A pass over all files that repairs nothing has found a permutation. */
  lemma {:induction false} QuietMeansPermuted(rows: seq<Row>, ps: seq<real>)
    requires PassRepairs(rows, ps) == 0 && |ps| >= |rows|
    ensures Permuted(rows) && Permuted(Pass(rows, ps))
  {
    QuietPass(rows, ps);
    Pigeonhole(rows);
    PermutedSame(rows, Pass(rows, ps));
  }

  // ---------- permutations are stable ----------

  lemma PermutedFind(rows: seq<Row>, i: nat)
    requires Permuted(rows) && i < |rows|
    ensures Find(rows, i).Some? && forall k :: 0 <= k < |rows| && rows[k].index == i ==> k == Find(rows, i).value
  {
    assert Carried(rows, i);
  }

  lemma PermutedRange(rows: seq<Row>, k: nat)
    requires Permuted(rows) && k < |rows|
    ensures 0 <= rows[k].index < |rows|
  {
    var v, x := Indices(rows, |rows|), rows[k].index;
    IndicesHold(rows, |rows|, k);
    AllCovered(rows);
    FewIndices(rows, |rows|);
    assert |v| == |v - {x}| + 1;
    if !(0 <= x < |rows|) {
      CoversCount(v - {x}, |rows|);
      assert false;
    }
  }

  /** What a pass over `m` files leaves of a permuted table: progress by index, everything else as it was. */
  ghost predicate Tracked(rows: seq<Row>, rows': seq<Row>, ps: seq<real>) {
    && |rows'| == |rows|
    && forall k :: 0 <= k < |rows| ==>
                     && rows'[k].index == rows[k].index && rows'[k].selected == rows[k].selected
                     && rows'[k].progress ==
                        if 0 <= rows[k].index < |ps| then Clamp(ps[rows[k].index]) else rows[k].progress
  }

  lemma {:induction false} PermutedPass(rows: seq<Row>, ps: seq<real>)
    requires Permuted(rows)
    ensures Tracked(rows, Pass(rows, ps), ps) && PassRepairs(rows, ps) == 0 && Permuted(Pass(rows, ps))
    ensures forall k :: 0 <= k < |rows| ==> PassWrites(rows, ps, k) == AsNat(0 <= rows[k].index < |ps|)
  {
    if ps != [] {
      var front, i := ps[..|ps| - 1], |ps| - 1;
      PermutedPass(rows, front);
      var mid := Pass(rows, front);
      if i < |rows| {
        PermutedFind(mid, i);
      } else {
        forall k | 0 <= k < |rows| ensures rows[k].index < i && mid[k].index < i {
          PermutedRange(rows, k);
        }
      }
      PermutedSame(rows, Pass(rows, ps));
    }
  }

  /**
   From a permutation on, every full pass repairs nothing, writes each row exactly once and leaves
   on it the clamped progress of the file its index names.
   */
  lemma StablePass(rows: seq<Row>, ps: seq<real>, k: nat)
    requires Permuted(rows) && |ps| >= |rows| && k < |rows|
    ensures PassRepairs(rows, ps) == 0 && PassWrites(rows, ps, k) == 1 && Permuted(Pass(rows, ps))
    ensures 0 <= rows[k].index < |ps| && |Pass(rows, ps)| == |rows|
    ensures Pass(rows, ps)[k] == rows[k].(progress := Clamp(ps[rows[k].index]))
  {
    PermutedPass(rows, ps);
    PermutedRange(rows, k);
  }

  /** Whatever the indices were, n full passes make them a permutation, for good. */
  lemma {:induction false} Stabilises(rows: seq<Row>, pss: seq<seq<real>>)
    requires forall j :: 0 <= j < |pss| ==> |pss[j]| >= |rows|
    ensures Permuted(Passes(rows, pss)) || TotalRepairs(rows, pss) >= |pss|
    ensures |pss| >= |rows| - Fixed(rows, |rows|) ==> Permuted(Passes(rows, pss))
  {
    RepairsAreBounded(rows, pss);
    var after := Passes(rows, pss);
    if pss != [] {
      var front, ps := pss[..|pss| - 1], pss[|pss| - 1];
      Stabilises(rows, front);
      RepairsAreBounded(rows, front);
      var mid := Passes(rows, front);
      if Permuted(mid) {
        PermutedPass(mid, ps);
      } else if PassRepairs(mid, ps) == 0 {
        QuietMeansPermuted(mid, ps);
      }
    }
    if Fixed(after, |rows|) == |rows| {
      AllFixed(after, |rows|);
      IdentityPermuted(after);
    }
  }

  lemma {:induction false} AllFixed(rows: seq<Row>, n: nat)
    requires n <= |rows| && Fixed(rows, n) == n
    ensures forall k :: 0 <= k < n ==> rows[k].index == k
  {
    if n > 0 {
      AllFixed(rows, n - 1);
    }
  }

  // ---------- when one pass is enough ----------

  /** A first pass will write index `i`: each row that starts with it is an earlier one rewritten before. */
  predicate WillRepair(rows: seq<Row>, i: nat)
    decreases i
  {
    forall k: nat :: k < |rows| && rows[k].index == i ==> k < i && WillRepair(rows, k)
  }

  /** Some row ends up with index `i`: it is written, or a row that starts with it is never rewritten. */
  predicate Kept(rows: seq<Row>, i: nat) {
    WillRepair(rows, i) || exists k: nat :: k < |rows| && rows[k].index == i && !WillRepair(rows, k)
  }

  /** What every index is after a pass, in terms of the indices before it. */
  lemma {:induction false} PassIndices(rows: seq<Row>, ps: seq<real>)
    ensures |Pass(rows, ps)| == |rows|
    ensures forall k: nat :: k < |rows| ==>
                               Pass(rows, ps)[k].index == if k < |ps| && WillRepair(rows, k) then k else rows[k].index
  {
    if ps != [] {
      var front, i := ps[..|ps| - 1], |ps| - 1;
      PassIndices(rows, front);
      RepairForeseen(rows, Pass(rows, front), i);
    }
  }

  lemma RepairForeseen(rows: seq<Row>, mid: seq<Row>, i: nat)
    requires |mid| == |rows|
    requires forall k: nat :: k < |rows| ==>
                                mid[k].index == if k < i && WillRepair(rows, k) then k else rows[k].index
    ensures Find(mid, i).None? <==> WillRepair(rows, i)
  {
  }

  /**
   One full pass makes the indices a permutation if and only if every index is kept, which can be
   read off the indices before the pass.
   */
  lemma {:induction false} OnePassSuffices(rows: seq<Row>, ps: seq<real>)
    requires |ps| >= |rows|
    ensures Permuted(Pass(rows, ps)) <==> forall i: nat :: i < |rows| ==> Kept(rows, i)
  {
    var after := Pass(rows, ps);
    PassIndices(rows, ps);
    forall i: nat | i < |rows| ensures Carried(after, i) <==> Kept(rows, i) {
      CarriedIfKept(rows, after, i);
    }
    if forall i: nat :: i < |rows| ==> Kept(rows, i) {
      Pigeonhole(after);
    }
  }

  lemma CarriedIfKept(rows: seq<Row>, after: seq<Row>, i: nat)
    requires i < |after| == |rows|
    requires forall k: nat :: k < |rows| ==> after[k].index == if WillRepair(rows, k) then k else rows[k].index
    ensures Carried(after, i) <==> Kept(rows, i)
  {
  }

  /** A table that fails the condition, though not one this server creates (`ServerRowsNeedOnePass`). */
  lemma OnePassMayNotSuffice()
    ensures var rows := [Row(1, 0.0, true), Row(1, 0.0, true), Row(0, 0.0, true)];
            !Permuted(Pass(rows, [0.5, 0.5, 0.5]))
  {
    var r0 := [Row(1, 0.0, true), Row(1, 0.0, true), Row(0, 0.0, true)];
    var h := 0.5;
    assert Clamp(h) == h;
    var ps := [h, h, h];
    assert Pass(r0, ps[..1][..0]) == r0;
    assert Find(r0, 0) == Some(2);
    var r1 := r0[2 := Row(0, h, true)];
    assert Pass(r0, ps[..2][..1]) == r1;
    assert Find(r1, 1) == Some(0);
    var r2 := r1[0 := Row(1, h, true)];
    assert Pass(r0, ps[..2]) == r2;
    assert Find(r2, 2) == None;
    var r3 := r2[2 := Row(2, h, true)];
    assert Pass(r0, ps) == r3;
    assert !Carried(r3, 0);
  }

  // ---------- the rows this server creates ----------

  /** Every row carries the default index 0 or its own position. */
  predicate OwnOrZero(rows: seq<Row>) { forall k :: 0 <= k < |rows| ==> rows[k].index == 0 || rows[k].index == k }

  /** Any updates, in any order. */
  function Updates(rows: seq<Row>, us: seq<(nat, real)>): seq<Row> {
    if us == [] then rows
    else Update(Updates(rows, us[..|us| - 1]), us[|us| - 1].0, us[|us| - 1].1)
  }

  /** Updates in any order keep every index 0 or the row's own position. */
  lemma {:induction false} OwnOrZeroKept(rows: seq<Row>, us: seq<(nat, real)>)
    requires OwnOrZero(rows)
    ensures |Updates(rows, us)| == |rows| && OwnOrZero(Updates(rows, us))
  {
    if us != [] {
      OwnOrZeroKept(rows, us[..|us| - 1]);
    }
  }

  /** Updates in any order leave the indices of a permutation alone. */
  lemma {:induction false} PermutedKept(rows: seq<Row>, us: seq<(nat, real)>)
    requires Permuted(rows)
    ensures SameIndices(rows, Updates(rows, us)) && Permuted(Updates(rows, us))
  {
    if us != [] {
      var mid, u := Updates(rows, us[..|us| - 1]), us[|us| - 1];
      PermutedKept(rows, us[..|us| - 1]);
      if u.0 < |mid| {
        PermutedFind(mid, u.0);
      }
      PermutedSame(rows, Updates(rows, us));
    }
  }

  /**
   The rows this server creates have no index given, or the file indices in the order in which the
   database stored them. Whatever updates came before, one full pass leaves a permutation; rows
   created without indices get their own positions.
   */
  lemma {:induction false} ServerRowsNeedOnePass(rows: seq<Row>, us: seq<(nat, real)>, ps: seq<real>)
    requires (OwnOrZero(rows) || Permuted(rows)) && |ps| >= |rows|
    ensures var after := Pass(Updates(rows, us), ps);
            && |after| == |rows| && Permuted(after)
            && (OwnOrZero(rows) ==> forall k :: 0 <= k < |rows| ==> after[k].index == k)
            && (Permuted(rows) ==> SameIndices(rows, after))
  {
    if OwnOrZero(rows) {
      DefaultRowsSettle(rows, us, ps);
    }
    if Permuted(rows) {
      PermutedKept(rows, us);
      PermutedPass(Updates(rows, us), ps);
    }
  }

  lemma {:induction false} DefaultRowsSettle(rows: seq<Row>, us: seq<(nat, real)>, ps: seq<real>)
    requires OwnOrZero(rows) && |ps| >= |rows|
    ensures var after := Pass(Updates(rows, us), ps);
            |after| == |rows| && Permuted(after) && forall k :: 0 <= k < |rows| ==> after[k].index == k
  {
    OwnOrZeroKept(rows, us);
    var mid := Updates(rows, us);
    PassIndices(mid, ps);
    forall k: nat | k < |rows| ensures Pass(mid, ps)[k].index == k {
      assert mid[k].index != k ==> WillRepair(mid, k);
    }
    IdentityPermuted(Pass(mid, ps));
  }

  lemma {:induction false} FreshPrefix(rows: seq<Row>, ps: seq<real>)
    requires forall k :: 0 <= k < |rows| ==> rows[k].index == 0
    ensures |Pass(rows, ps)| == |rows|
    ensures forall k :: 0 <= k < |rows| ==>
                          Pass(rows, ps)[k] == if k < |ps| then Row(k, Clamp(ps[k]), rows[k].selected) else rows[k]
  {
    if ps != [] {
      var front, i := ps[..|ps| - 1], |ps| - 1;
      FreshPrefix(rows, front);
      var mid := Pass(rows, front);
      if i == 0 {
        assert rows != [] ==> Find(mid, 0) == Some(0);
      } else {
        assert forall k :: 0 <= k < |rows| ==> mid[k].index != i;
        assert Find(mid, i) == None;
      }
    }
  }

  /**
   Rows all created with index 0: one full pass gives row k index k and the clamped progress of
   file k, and any number of later passes changes progress only, within [0, 1].
   */
  lemma {:induction false} FreshRowsSettleAtOnce(rows: seq<Row>, first: seq<real>, pss: seq<seq<real>>)
    requires forall k :: 0 <= k < |rows| ==> rows[k].index == 0
    requires |first| == |rows| && forall j :: 0 <= j < |pss| ==> |pss[j]| == |rows|
    ensures var after := Passes(Pass(rows, first), pss);
            var last := if pss == [] then first else pss[|pss| - 1];
            |after| == |rows| && forall k :: 0 <= k < |rows| ==> after[k] == Row(k, Clamp(last[k]), rows[k].selected)
  {
    var settled := Pass(rows, first);
    FreshPrefix(rows, first);
    if pss != [] {
      var front := pss[..|pss| - 1];
      FreshRowsSettleAtOnce(rows, first, front);
      var mid := Passes(settled, front);
      IdentityPermuted(mid);
      PermutedPass(mid, pss[|pss| - 1]);
    }
  }
}
