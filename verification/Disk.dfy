/**
 The download directory: sizing, recursive deletion and the eviction of old torrents. Nothing else
 writes to the directory meanwhile.
 */
module Disk {

  /** `locked` makes `unlink` or `rmdir` fail; `unreadable` makes `readdir` fail. */
  datatype Node = File(size: nat, locked: bool) | Dir(entries: seq<Entry>, locked: bool, unreadable: bool)

  datatype Entry = Entry(name: string, mtime: int, node: Node)

  // ---------- size ----------

  /** The bytes of all files in the tree. */
  function Size(n: Node): nat
    decreases n
  {
    match n
    case File(size, _) => size
    case Dir(entries, _, _) => Total(entries)
  }

  function Total(es: seq<Entry>): nat
    decreases es
  {
    if es == [] then 0 else Size(es[0].node) + Total(es[1..])
  }

  /** The bytes `getDirSize` finds: a directory that cannot be listed counts as empty. */
  function Measured(n: Node): nat
    decreases n
  {
    match n
    case File(size, _) => size
    case Dir(entries, _, unreadable) => if unreadable then 0 else MeasuredTotal(entries)
  }

  function MeasuredTotal(es: seq<Entry>): nat
    decreases es
  {
    if es == [] then 0 else Measured(es[0].node) + MeasuredTotal(es[1..])
  }

  /** The bytes below directories that cannot be listed. */
  function Hidden(n: Node): nat
    decreases n
  {
    match n
    case File(_, _) => 0
    case Dir(entries, _, unreadable) => if unreadable then Total(entries) else HiddenTotal(entries)
  }

  function HiddenTotal(es: seq<Entry>): nat
    decreases es
  {
    if es == [] then 0 else Hidden(es[0].node) + HiddenTotal(es[1..])
  }

  /** Every byte is measured or hidden, so the measure is real exactly when nothing is hidden. */
  lemma {:induction false} NodeSplits(n: Node)
    ensures Size(n) == Measured(n) + Hidden(n)
    decreases n
  {
    if n.Dir? {
      SizeSplits(n.entries);
    }
  }

  lemma {:induction false} SizeSplits(es: seq<Entry>)
    ensures Total(es) == MeasuredTotal(es) + HiddenTotal(es)
    ensures MeasuredTotal(es) == Total(es) <==> HiddenTotal(es) == 0
    decreases es
  {
    if es != [] {
      NodeSplits(es[0].node);
      SizeSplits(es[1..]);
    }
  }

  /** No directory in the tree resists listing. */
  predicate Readable(n: Node)
    decreases n
  {
    n.Dir? ==> !n.unreadable && AllReadable(n.entries)
  }

  predicate AllReadable(es: seq<Entry>)
    decreases es
  {
    es != [] ==> Readable(es[0].node) && AllReadable(es[1..])
  }

  /** In a readable tree every byte is measured; in a directory that cannot be listed none is. */
  lemma {:induction false} ReadableMeasured(n: Node)
    ensures Readable(n) ==> Measured(n) == Size(n)
    ensures n.Dir? && n.unreadable ==> Measured(n) == 0
    decreases n
  {
    if n.Dir? {
      AllReadableMeasured(n.entries);
    }
  }

  lemma {:induction false} AllReadableMeasured(es: seq<Entry>)
    ensures AllReadable(es) ==> MeasuredTotal(es) == Total(es)
    decreases es
  {
    if es != [] {
      ReadableMeasured(es[0].node);
      AllReadableMeasured(es[1..]);
    }
  }

  lemma {:induction false} TotalAppend(a: seq<Entry>, b: seq<Entry>)
    ensures MeasuredTotal(a + b) == MeasuredTotal(a) + MeasuredTotal(b)
    ensures HiddenTotal(a + b) == HiddenTotal(a) + HiddenTotal(b)
  {
    if a == [] {
      assert a + b == b;
    } else {
      TotalAppend(a[1..], b);
      assert (a + b)[1..] == a[1..] + b;
    }
  }

  /** `getDirSize` of a directory: the failed listing is caught and what was added up so far is returned. */
  method GetDirSize(d: Node) returns (size: nat)
    requires d.Dir?
    ensures size == Measured(d)
    decreases d
  {
    size := 0;
    if d.unreadable { return; }
    var es := d.entries;
    var i := 0;
    while i < |es|
      invariant 0 <= i <= |es| && size + MeasuredTotal(es[i..]) == MeasuredTotal(es)
    {
      if es[i].node.Dir? {
        var s := GetDirSize(es[i].node);
        size := size + s;
      } else {
        size := size + es[i].node.size;
      }
      i := i + 1;
    }
  }

  // ---------- what can be left of a tree ----------

  /** `r` is `o` with some files and directories missing; what cannot be listed stays so. */
  ghost predicate Pruned(r: Node, o: Node)
    decreases o
  {
    if o.File? then r == o else r.Dir? && r.unreadable == o.unreadable && PrunedEntries(r.entries, o.entries)
  }

  ghost predicate PrunedEntries(r: seq<Entry>, o: seq<Entry>)
    decreases o
  {
    if o == [] then r == []
    else
      || PrunedEntries(r, o[1..])
      || (r != [] && r[0].name == o[0].name && Pruned(r[0].node, o[0].node) && PrunedEntries(r[1..], o[1..]))
  }

  lemma {:induction false} PrunedSize(r: Node, o: Node)
    requires Pruned(r, o)
    ensures Measured(r) <= Measured(o) && Hidden(r) <= Hidden(o)
    decreases o
  {
    if o.Dir? {
      PrunedTotal(r.entries, o.entries);
      SizeSplits(r.entries);
      SizeSplits(o.entries);
    }
  }

  lemma {:induction false} PrunedTotal(r: seq<Entry>, o: seq<Entry>)
    requires PrunedEntries(r, o)
    ensures MeasuredTotal(r) <= MeasuredTotal(o) && HiddenTotal(r) <= HiddenTotal(o)
    decreases o
  {
    if o != [] {
      if PrunedEntries(r, o[1..]) {
        PrunedTotal(r, o[1..]);
      } else {
        PrunedSize(r[0].node, o[0].node);
        PrunedTotal(r[1..], o[1..]);
      }
    }
  }

  lemma {:induction false} PrunedSelf(n: Node)
    ensures Pruned(n, n)
    decreases n
  {
    if n.Dir? {
      PrunedEntriesSelf(n.entries);
    }
  }

  lemma {:induction false} PrunedEntriesSelf(es: seq<Entry>)
    ensures PrunedEntries(es, es)
    decreases es
  {
    if es != [] {
      PrunedSelf(es[0].node);
      PrunedEntriesSelf(es[1..]);
    }
  }

  // ---------- recursive deletion ----------

  /** `recursiveDelete` returns normally, or throws and leaves `rest` behind. */
  datatype Deletion = Gone | Threw(rest: Node)

  /** The loop over the entries: what is left of them, and whether a nested deletion threw. */
  datatype Loop = Loop(left: seq<Entry>, threw: bool)

  function Delete(d: Node): Deletion
    requires d.Dir?
    decreases d, 0
  {
    if d.unreadable then Threw(d)
    else
      var l := DeleteEntries(d.entries);
      if l.threw || l.left != [] || d.locked then Threw(d.(entries := l.left)) else Gone
  }

  function DeleteEntries(es: seq<Entry>): Loop
    decreases es, 1
  {
    if es == [] then Loop([], false)
    else if es[0].node.File? then
      var l := DeleteEntries(es[1..]);
      if es[0].node.locked then Loop([es[0]] + l.left, l.threw) else l
    else
      match Delete(es[0].node)
      case Gone => DeleteEntries(es[1..])
      case Threw(rest) => Loop([es[0].(node := rest)] + es[1..], true)
  }

  /** Nothing in the tree resists deletion. */
  predicate Deletable(n: Node)
    decreases n
  {
    match n
    case File(_, locked) => !locked
    case Dir(entries, locked, unreadable) => !locked && !unreadable && AllDeletable(entries)
  }

  predicate AllDeletable(es: seq<Entry>)
    decreases es
  {
    es != [] ==> Deletable(es[0].node) && AllDeletable(es[1..])
  }

  /** The directory is gone exactly when nothing in it resists; otherwise a pruned tree is left. */
  lemma {:induction false} DeleteOutcome(d: Node)
    requires d.Dir?
    ensures Delete(d).Gone? <==> Deletable(d)
    ensures Delete(d).Threw? ==> Delete(d).rest.Dir? && Pruned(Delete(d).rest, d)
    decreases d, 0
  {
    PrunedSelf(d);
    DeleteEntriesOutcome(d.entries);
  }

  lemma {:induction false} DeleteEntriesOutcome(es: seq<Entry>)
    ensures var l := DeleteEntries(es);
            (!l.threw && l.left == [] <==> AllDeletable(es)) && PrunedEntries(l.left, es)
    decreases es, 1
  {
    if es != [] {
      PrunedSelf(es[0].node);
      PrunedEntriesSelf(es[1..]);
      DeleteEntriesOutcome(es[1..]);
      if es[0].node.Dir? {
        DeleteOutcome(es[0].node);
      }
    }
  }

  /** The files that resist deletion, in order. */
  function LockedFiles(es: seq<Entry>): (r: seq<Entry>)
    ensures forall e :: e in r <==> e in es && e.node.File? && e.node.locked
  {
    if es == [] then []
    else (if es[0].node.File? && es[0].node.locked then [es[0]] else []) + LockedFiles(es[1..])
  }

  /** `k` is the first directory that does not go away, or the end of the listing. */
  ghost predicate FirstStuck(es: seq<Entry>, k: nat) {
    && k <= |es|
    && (forall j :: 0 <= j < k && es[j].node.Dir? ==> Deletable(es[j].node))
    && (k < |es| ==> es[k].node.Dir? && !Deletable(es[k].node))
  }

  /** What stays when the first `k` entries are worked off and the deletion stops inside the next one. */
  function Stopped(es: seq<Entry>, k: nat): seq<Entry>
    requires k <= |es| && (k < |es| ==> es[k].node.Dir?)
  {
    LockedFiles(es[..k]) +
    (if k == |es| || Delete(es[k].node).Gone? then [] else [es[k].(node := Delete(es[k].node).rest)] + es[k + 1..])
  }

  lemma {:induction false} EntriesLeft(es: seq<Entry>, k: nat)
    requires FirstStuck(es, k)
    ensures DeleteEntries(es) == Loop(Stopped(es, k), k < |es|)
  {
    if k > 0 {
      if es[0].node.Dir? {
        DeleteOutcome(es[0].node);
      }
      EntriesLeft(es[1..], k - 1);
      StopLater(es, k);
      PassedOver(es);
    } else if es != [] {
      DeleteOutcome(es[0].node);
      assert es[..0] == [];
    }
  }

  lemma {:induction false} PassedOver(es: seq<Entry>)
    requires es != [] && (es[0].node.File? || Delete(es[0].node).Gone?)
    ensures var l := DeleteEntries(es[1..]); DeleteEntries(es) == Loop(LockedFiles(es[..1]) + l.left, l.threw)
  {
    assert es[..1] == [es[0]] && [es[0]][1..] == [];
  }

  lemma {:induction false} StopLater(es: seq<Entry>, k: nat)
    requires 0 < k <= |es| && (k < |es| ==> es[k].node.Dir?)
    ensures Stopped(es, k) == LockedFiles(es[..1]) + Stopped(es[1..], k - 1)
  {
    var rest := es[1..];
    assert es[..k][1..] == rest[..k - 1] && es[..1][1..] == [];
    assert k < |es| ==> rest[k - 1] == es[k] && rest[k..] == es[k + 1..];
  }

  /**
   What a failed deletion leaves: a directory that cannot be listed stays whole; otherwise only the
   locked files before the first directory that does not go away, what is left of that one, and all
   entries after it.
   */
  lemma {:induction false} FailedDeletionLeaves(d: Node, k: nat)
    requires d.Dir? && !Deletable(d) && FirstStuck(d.entries, k)
    ensures Delete(d) == Threw(if d.unreadable then d else d.(entries := Stopped(d.entries, k)))
  {
    DeleteOutcome(d);
    EntriesLeft(d.entries, k);
  }

  /** The deletion as the loop performs it, entry by entry. */
  method RecursiveDelete(d: Node) returns (r: Deletion)
    requires d.Dir?
    ensures r == Delete(d)
    decreases d
  {
    if d.unreadable { return Threw(d); }
    var es := d.entries;
    var left: seq<Entry> := [];
    var i := 0;
    while i < |es|
      invariant 0 <= i <= |es|
      invariant DeleteEntries(es) == Loop(left + DeleteEntries(es[i..]).left, DeleteEntries(es[i..]).threw)
    {
      var e := es[i];
      assert es[i..][1..] == es[i + 1..];
      if e.node.Dir? {
        var inner := RecursiveDelete(e.node);
        if inner.Threw? {
          left := left + ([e.(node := inner.rest)] + es[i + 1..]);
          return Threw(d.(entries := left));
        }
      } else if e.node.locked {
        assert left + ([e] + DeleteEntries(es[i + 1..]).left) == (left + [e]) + DeleteEntries(es[i + 1..]).left;
        left := left + [e];
      }
      i := i + 1;
    }
    assert left + DeleteEntries(es[i..]).left == left;
    if left != [] || d.locked { return Threw(d.(entries := left)); }
    return Gone;
  }

  /** The enclosing directory after deleting the directory at position `k`. */
  function After(es: seq<Entry>, k: nat): seq<Entry>
    requires k < |es| && es[k].node.Dir?
  {
    match Delete(es[k].node)
    case Gone => es[..k] + es[k + 1..]
    case Threw(rest) => es[k := es[k].(node := rest)]
  }

  lemma {:induction false} DeletableIsVisible(n: Node)
    requires Deletable(n)
    ensures Hidden(n) == 0
    decreases n
  {
    if n.Dir? {
      AllDeletableVisible(n.entries);
    }
  }

  lemma {:induction false} AllDeletableVisible(es: seq<Entry>)
    requires AllDeletable(es)
    ensures HiddenTotal(es) == 0
    decreases es
  {
    if es != [] {
      DeletableIsVisible(es[0].node);
      AllDeletableVisible(es[1..]);
    }
  }

  /**
   A normal return lowers the enclosing size, measured and real, by exactly the subtree's size;
   a throw never raises either.
   */
  lemma {:induction false} DeleteFreesSubtree(es: seq<Entry>, k: nat)
    requires k < |es| && es[k].node.Dir?
    ensures Deletable(es[k].node) ==>
              && Total(After(es, k)) == Total(es) - Size(es[k].node)
              && MeasuredTotal(After(es, k)) == MeasuredTotal(es) - Measured(es[k].node)
              && Measured(es[k].node) == Size(es[k].node)
    ensures !Deletable(es[k].node) ==>
              && Total(es) - Size(es[k].node) <= Total(After(es, k)) <= Total(es)
              && MeasuredTotal(es) - Measured(es[k].node) <= MeasuredTotal(After(es, k)) <= MeasuredTotal(es)
  {
    var d, a := es[k].node, After(es, k);
    DeleteOutcome(d);
    Isolate(es, k);
    SizeSplits(es);
    SizeSplits(a);
    NodeSplits(d);
    if Delete(d).Gone? {
      DeletableIsVisible(d);
      TotalAppend(es[..k], es[k + 1..]);
    } else {
      PrunedSize(Delete(d).rest, d);
      Isolate(a, k);
      assert a[..k] == es[..k] && a[k + 1..] == es[k + 1..];
    }
  }

  lemma Isolate(es: seq<Entry>, k: nat)
    requires k < |es|
    ensures MeasuredTotal(es) == MeasuredTotal(es[..k]) + Measured(es[k].node) + MeasuredTotal(es[k + 1..])
    ensures HiddenTotal(es) == HiddenTotal(es[..k]) + Hidden(es[k].node) + HiddenTotal(es[k + 1..])
  {
    TotalAppend(es[..k], es[k..]);
    assert es == es[..k] + es[k..];
    assert es[k..][1..] == es[k + 1..];
  }
}
