/** Byte ranges as the stream handlers read them (sections 14.1.2 and 14.4 of RFC 9110). */
module Ranges {
  import opened Text

  const UNIT := "bytes="

  /** `range.replace(/bytes=/, '')`: the first occurrence is dropped. */
  function DropUnit(range: string): string {
    match IndexOf(range, UNIT)
    case None => range
    case Some(i) => range[..i] + range[i + |UNIT|..]
  }

  /** First and last byte asked for; None is NaN. */
  datatype Bounds = Bounds(start: Option<int>, end: Option<int>)

  function ParseRange(range: string, fileSize: nat): Bounds {
    var parts := Split(DropUnit(range), "-");
    Bounds(ParseInt(parts[0]),
           if |parts| > 1 && parts[1] != "" then ParseInt(parts[1]) else Some(fileSize - 1))
  }

  /** The Content-Length of the partial answer. */
  function ChunkSize(b: Bounds): int
    requires b.start.Some? && b.end.Some?
  {
    b.end.value - b.start.value + 1
  }

  function Print(a: nat, b: nat): string { UNIT + (Decimal(a) + "-" + Decimal(b)) }

  function PrintOpen(a: nat): string { UNIT + (Decimal(a) + "-") }

  lemma DropPrinted(x: string)
    ensures DropUnit(UNIT + x) == x
  {
  }

  lemma NoDash(n: nat)
    ensures '-' !in Decimal(n) && Decimal(n) != ""
  {
  }

  /** A printed range is read back with the same bounds. */
  lemma RangeRoundTrip(a: nat, b: nat, fileSize: nat)
    ensures ParseRange(Print(a, b), fileSize) == Bounds(Some(a), Some(b))
  {
    DropPrinted(Decimal(a) + "-" + Decimal(b));
    NoDash(a);
    NoDash(b);
    SplitFirst(Decimal(a), '-', Decimal(b));
    SplitOne(Decimal(b), '-');
    ParseIntOfDecimal(a);
    ParseIntOfDecimal(b);
  }

  /** The unit is dropped wherever it is, once, and need not be there. */
  lemma {:induction false} UnitAnywhere(start: string, rest: string)
    requires IndexOf(start + (UNIT + rest), UNIT) == Some(|start|)
    ensures DropUnit(start + (UNIT + rest)) == start + rest
  {
    DropAt(start, UNIT, rest);
  }

  lemma DropAt(a: string, b: string, c: string)
    ensures var s := a + (b + c); s[..|a|] + s[|a| + |b|..] == a + c
  {
  }

  /** A range without the unit is read in the same way. */
  lemma {:induction false} UnitOptional(range: string, fileSize: nat)
    requires IndexOf(range, UNIT).None?
    ensures ParseRange(range, fileSize) == ParseRange(UNIT + range, fileSize)
  {
    DropPrinted(range);
  }

  /** An open range runs to the end of the file. */
  lemma OpenRangeRoundTrip(a: nat, fileSize: nat)
    ensures ParseRange(PrintOpen(a), fileSize) == Bounds(Some(a), Some(fileSize - 1))
  {
    DropPrinted(Decimal(a) + "-");
    NoDash(a);
    SplitFirst(Decimal(a), '-', "");
    SplitOne("", '-');
    assert Decimal(a) + "-" + "" == Decimal(a) + "-";
    ParseIntOfDecimal(a);
  }

  // ---------- downloading a file piece by piece ----------

  /** The ranges of consecutive non-empty pieces from `from`; the last one may be left open. */
  function Requests(from: nat, pieces: seq<nat>, openEnd: bool): seq<string>
    requires forall i :: 0 <= i < |pieces| ==> pieces[i] > 0
    decreases pieces
  {
    if pieces == [] then []
    else
      var r := if |pieces| == 1 && openEnd then PrintOpen(from) else Print(from, from + pieces[0] - 1);
      [r] + Requests(from + pieces[0], pieces[1..], openEnd)
  }

  function Sum(pieces: seq<nat>): nat { if pieces == [] then 0 else pieces[0] + Sum(pieces[1..]) }

  /** What the handler reads in a series of range headers. */
  function ReadAll(ranges: seq<string>, fileSize: nat): seq<Bounds> {
    if ranges == [] then [] else [ParseRange(ranges[0], fileSize)] + ReadAll(ranges[1..], fileSize)
  }

  /** The bounds of consecutive pieces. */
  function Pieces(from: nat, pieces: seq<nat>): seq<Bounds>
    decreases pieces
  {
    if pieces == [] then []
    else [Bounds(Some(from), Some(from + pieces[0] - 1))] + Pieces(from + pieces[0], pieces[1..])
  }

  lemma FirstRequest(from: nat, pieces: seq<nat>, openEnd: bool, fileSize: nat)
    requires pieces != [] && forall i :: 0 <= i < |pieces| ==> pieces[i] > 0
    requires from + Sum(pieces) == fileSize
    ensures ParseRange(Requests(from, pieces, openEnd)[0], fileSize) == Bounds(Some(from), Some(from + pieces[0] - 1))
  {
    if |pieces| == 1 && openEnd {
      assert Sum(pieces[1..]) == 0;
      OpenRangeRoundTrip(from, fileSize);
    } else {
      RangeRoundTrip(from, from + pieces[0] - 1, fileSize);
    }
  }

  /** Every piece of a file is read back with its own bounds. */
  lemma {:induction false} RequestsReadBack(from: nat, pieces: seq<nat>, openEnd: bool, fileSize: nat)
    requires forall i :: 0 <= i < |pieces| ==> pieces[i] > 0
    requires from + Sum(pieces) == fileSize
    ensures ReadAll(Requests(from, pieces, openEnd), fileSize) == Pieces(from, pieces)
    decreases pieces
  {
    if pieces != [] {
      var ranges, rest := Requests(from, pieces, openEnd), Requests(from + pieces[0], pieces[1..], openEnd);
      RequestsReadBack(from + pieces[0], pieces[1..], openEnd, fileSize);
      FirstRequest(from, pieces, openEnd, fileSize);
      assert ranges[1..] == rest;
      ReadMore(ranges, fileSize);
    }
  }

  lemma ReadMore(ranges: seq<string>, fileSize: nat)
    requires ranges != []
    ensures ReadAll(ranges, fileSize) == [ParseRange(ranges[0], fileSize)] + ReadAll(ranges[1..], fileSize)
  {
  }

  predicate Inside(b: Bounds, fileSize: nat) {
    b.start.Some? && b.end.Some? && 0 <= b.start.value <= b.end.value < fileSize
  }

  /** The bodies the handler streams one after another; None when some bounds are not inside the file. */
  function Streamed(file: seq<Byte>, bs: seq<Bounds>): Option<seq<Byte>> {
    if bs == [] then Some([])
    else
      var rest := Streamed(file, bs[1..]);
      if rest.None? || !Inside(bs[0], |file|) then None
      else Some(file[bs[0].start.value..bs[0].end.value + 1] + rest.value)
  }

  /** The Content-Length headers added up. */
  function Lengths(bs: seq<Bounds>): int
    requires forall i :: 0 <= i < |bs| ==> bs[i].start.Some? && bs[i].end.Some?
  {
    if bs == [] then 0 else ChunkSize(bs[0]) + Lengths(bs[1..])
  }

  lemma {:induction false} PiecesCover(file: seq<Byte>, from: nat, pieces: seq<nat>)
    requires forall i :: 0 <= i < |pieces| ==> pieces[i] > 0
    requires from + Sum(pieces) == |file|
    ensures var bs := Pieces(from, pieces);
            && (forall i :: 0 <= i < |bs| ==> bs[i].start.Some? && bs[i].end.Some?) && Lengths(bs) == Sum(pieces)
            && Streamed(file, bs) == Some(file[from..])
    decreases pieces
  {
    if pieces == [] {
      assert file[from..] == [];
    } else {
      var next := from + pieces[0];
      PiecesCover(file, next, pieces[1..]);
      assert file[from..] == file[from..next] + file[next..];
      assert Pieces(from, pieces)[1..] == Pieces(next, pieces[1..]);
    }
  }

  /**
   However a file is cut into consecutive non-empty pieces: requesting them one by one, the last one
   possibly open-ended, streams exactly the file, with lengths that add up to its size.
   */
  lemma PiecesMakeTheFile(file: seq<Byte>, pieces: seq<nat>, openEnd: bool)
    requires (forall i :: 0 <= i < |pieces| ==> pieces[i] > 0) && Sum(pieces) == |file|
    ensures var bs := ReadAll(Requests(0, pieces, openEnd), |file|);
            && (forall i :: 0 <= i < |bs| ==> bs[i].start.Some? && bs[i].end.Some?) && Lengths(bs) == |file|
            && Streamed(file, bs) == Some(file)
  {
    RequestsReadBack(0, pieces, openEnd, |file|);
    PiecesCover(file, 0, pieces);
    assert file[0..] == file;
  }
}
