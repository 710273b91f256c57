/**
 The bencode printer of the DHT client, against a strict decoder of the format of BEP 3
 ("bencoding"): canonical numerals and strictly ascending dictionary keys only.
 */
module Bencode {
  import opened Text

  /** A property list: an object's own keys in insertion order. */
  datatype Fields<T> = Empty | Field(key: string, value: T, rest: Fields<T>)

  /** The text of a buffer nested in a message, one byte a character. */
  type AsciiText = s: string | IsAscii(s)

  datatype Values = Nil | Cons(head: Value, tail: Values)

  /** `Other` stands for every argument the printer has no branch for: null, undefined, booleans. */
  datatype Value =
    | Int(n: int)
    | Str(s: string)
    | Buf(b: AsciiText)
    | List(items: Values)
    | Dict(fields: Fields<Value>)
    | Other

  // ---------- key order ----------

  /** Characters rank by their first UTF-16 unit, so surrogate pairs come before U+E000. */
  function Rank(c: char): nat { if 0xE000 <= c as int < 0x10000 then c as int + 0x110000 else c as int }

  /** The default order of `Array.prototype.sort` on strings. */
  predicate Less(a: string, b: string) {
    b != "" && (a == "" || Rank(a[0]) < Rank(b[0]) || (a[0] == b[0] && Less(a[1..], b[1..])))
  }

  predicate UnitsLess(x: seq<nat>, y: seq<nat>) {
    y != [] && (x == [] || x[0] < y[0] || (x[0] == y[0] && UnitsLess(x[1..], y[1..])))
  }

  /** It is the lexicographic order of the UTF-16 units. */
  lemma {:induction false} LessComparesUnits(a: string, b: string)
    ensures Less(a, b) <==> UnitsLess(Utf16All(a), Utf16All(b))
  {
    if a != "" && b != "" {
      LessComparesUnits(a[1..], b[1..]);
      var u, v := Utf16(a[0]), Utf16(b[0]);
      if a[0] == b[0] {
        SameStart(u, Utf16All(a[1..]), Utf16All(b[1..]));
      } else {
        FirstCharDecides(a[0], b[0], Utf16All(a[1..]), Utf16All(b[1..]));
      }
    }
  }

  lemma SameStart(u: seq<nat>, x: seq<nat>, y: seq<nat>)
    requires 1 <= |u| <= 2
    ensures UnitsLess(u + x, u + y) <==> UnitsLess(x, y)
  {
  }

  lemma FirstCharDecides(c: char, d: char, x: seq<nat>, y: seq<nat>)
    requires c != d
    ensures UnitsLess(Utf16(c) + x, Utf16(d) + y) <==> Rank(c) < Rank(d)
  {
  }

  lemma {:induction false} LessTotal(a: string, b: string)
    ensures Less(a, b) || Less(b, a) || a == b
    ensures !(Less(a, b) && Less(b, a)) && !Less(a, a)
  {
    if a != "" && b != "" {
      LessTotal(a[1..], b[1..]);
      LessTotal(a[1..], a[1..]);
      assert a == [a[0]] + a[1..] && b == [b[0]] + b[1..];
    } else if a != "" {
      LessTotal(a[1..], a[1..]);
    }
  }

  lemma {:induction false} LessTransitive(a: string, b: string, c: string)
    requires Less(a, b) && Less(b, c)
    ensures Less(a, c)
  {
    if a != "" && a[0] == b[0] == c[0] {
      LessTransitive(a[1..], b[1..], c[1..]);
    }
  }

  // ---------- sorting by key ----------

  function Insert<T>(k: string, v: T, f: Fields<T>): Fields<T> {
    match f
    case Empty => Field(k, v, Empty)
    case Field(k', v', rest) => if Less(k', k) then Field(k', v', Insert(k, v, rest)) else Field(k, v, f)
  }

  function Sort<T>(f: Fields<T>): Fields<T> {
    match f
    case Empty => Empty
    case Field(k, v, rest) => Insert(k, v, Sort(rest))
  }

  ghost predicate Has<T(!new)>(f: Fields<T>, k: string, v: T) {
    f.Field? && ((f.key == k && f.value == v) || Has(f.rest, k, v))
  }

  predicate HasKey<T>(f: Fields<T>, k: string) { f.Field? && (f.key == k || HasKey(f.rest, k)) }

  /** Object keys are unique. */
  predicate Distinct<T>(f: Fields<T>) { f.Field? ==> !HasKey(f.rest, f.key) && Distinct(f.rest) }

  predicate Above(lo: Option<string>, k: string) { lo.Some? ==> Less(lo.value, k) }

  /** Strictly ascending keys, all above `lo`. */
  predicate Ascending<T>(f: Fields<T>, lo: Option<string>) {
    f.Field? ==> Above(lo, f.key) && Ascending(f.rest, Some(f.key))
  }

  lemma {:induction false} InsertAscending<T>(k: string, v: T, f: Fields<T>, lo: Option<string>)
    requires Ascending(f, lo) && Above(lo, k) && !HasKey(f, k)
    ensures Ascending(Insert(k, v, f), lo)
  {
    if f.Field? {
      LessTotal(f.key, k);
      if Less(f.key, k) {
        InsertAscending(k, v, f.rest, Some(f.key));
      }
    }
  }

  lemma {:induction false} InsertHas<T(!new)>(k: string, v: T, f: Fields<T>, k': string, v': T)
    ensures Has(Insert(k, v, f), k', v') <==> (k == k' && v == v') || Has(f, k', v')
    ensures HasKey(Insert(k, v, f), k') <==> k == k' || HasKey(f, k')
  {
    if f.Field? {
      InsertHas(k, v, f.rest, k', v');
    }
  }

  lemma {:induction false} SortHas<T(!new)>(f: Fields<T>, k: string, v: T)
    ensures Has(Sort(f), k, v) <==> Has(f, k, v)
    ensures HasKey(Sort(f), k) <==> HasKey(f, k)
  {
    if f.Field? {
      SortHas(f.rest, k, v);
      InsertHas(f.key, f.value, Sort(f.rest), k, v);
    }
  }

  lemma {:induction false} SortAscending<T(!new)>(f: Fields<T>)
    requires Distinct(f)
    ensures Ascending(Sort(f), None)
  {
    if f.Field? {
      SortAscending(f.rest);
      SortHas(f.rest, f.key, f.value);
      InsertAscending(f.key, f.value, Sort(f.rest), None);
    }
  }

  lemma {:induction false} SortOfAscending<T>(f: Fields<T>, lo: Option<string>)
    requires Ascending(f, lo)
    ensures Sort(f) == f
  {
    if f.Field? {
      SortOfAscending(f.rest, Some(f.key));
      if f.rest.Field? {
        LessTotal(f.key, f.rest.key);
      }
    }
  }

  lemma {:induction false} AscendingBound<T(!new)>(f: Fields<T>, lo: Option<string>, k: string, v: T)
    requires Ascending(f, lo) && Has(f, k, v)
    ensures Above(lo, k)
  {
    if !(f.key == k && f.value == v) {
      AscendingBound(f.rest, Some(f.key), k, v);
      if lo.Some? {
        LessTransitive(lo.value, f.key, k);
      }
    }
  }

  /** Two ascending property lists with the same properties are the same list. */
  lemma {:induction false} AscendingUnique<T(!new)>(f: Fields<T>, g: Fields<T>, lo: Option<string>)
    requires Ascending(f, lo) && Ascending(g, lo)
    requires forall k, v :: Has(f, k, v) <==> Has(g, k, v)
    ensures f == g
  {
    assert f.Field? ==> Has(g, f.key, f.value);
    assert g.Field? ==> Has(f, g.key, g.value);
    if f.Field? && g.Field? {
      HeadsAgree(f, g, lo);
      var above := Some(f.key);
      forall k, v ensures Has(f.rest, k, v) <==> Has(g.rest, k, v) {
        assert Has(f, k, v) <==> Has(g, k, v);
        LessTotal(f.key, f.key);
        if Has(f.rest, k, v) { AscendingBound(f.rest, above, k, v); }
        if Has(g.rest, k, v) { AscendingBound(g.rest, above, k, v); }
      }
      AscendingUnique(f.rest, g.rest, above);
    }
  }

  lemma HeadsAgree<T(!new)>(f: Fields<T>, g: Fields<T>, lo: Option<string>)
    requires f.Field? && g.Field? && Ascending(f, lo) && Ascending(g, lo)
    requires Has(g, f.key, f.value) && Has(f, g.key, g.value)
    ensures f.key == g.key && f.value == g.value
  {
    LessTotal(f.key, g.key);
    if !(f.key == g.key && f.value == g.value) {
      AscendingBound(f.rest, Some(f.key), g.key, g.value);
      AscendingBound(g.rest, Some(g.key), f.key, f.value);
      assert false;
    }
  }

  // ---------- the printer ----------

  /** The length printed is `s.length`, in UTF-16 units. */
  function PrintString(s: string): string { Decimal(Units(s)) + ":" + s }

  function Encode(v: Value): string {
    match v
    case Int(n) => "i" + PrintInt(n) + "e"
    case Str(s) => PrintString(s)
    case Buf(b) => PrintString(b)
    case List(items) => "l" + EncodeItems(items)
    case Dict(fields) => "d" + Join(Sort(EncodeFields(fields)))
    case Other => ""
  }

  /** The items and the closing "e". */
  function EncodeItems(vs: Values): string {
    match vs
    case Nil => "e"
    case Cons(v, rest) => Encode(v) + EncodeItems(rest)
  }

  function EncodeFields(f: Fields<Value>): Fields<string> {
    match f
    case Empty => Empty
    case Field(k, v, rest) => Field(k, Encode(v), EncodeFields(rest))
  }

  /** The printed properties and the closing "e". */
  function Join(f: Fields<string>): string {
    match f
    case Empty => "e"
    case Field(k, v, rest) => PrintString(k) + (v + Join(rest))
  }

  // ---------- what a value means ----------

  /** Every object has unique keys, as objects do. */
  predicate Valid(v: Value) {
    match v
    case List(items) => ValidItems(items)
    case Dict(fields) => Distinct(fields) && ValidFields(fields)
    case _ => true
  }

  predicate ValidItems(vs: Values) { vs.Cons? ==> Valid(vs.head) && ValidItems(vs.tail) }

  predicate ValidFields(f: Fields<Value>) { f.Field? ==> Valid(f.value) && ValidFields(f.rest) }

  /** No part of the value falls through to the printer's empty-string result. */
  predicate Printable(v: Value) {
    match v
    case Other => false
    case List(items) => PrintableItems(items)
    case Dict(fields) => PrintableFields(fields)
    case _ => true
  }

  predicate PrintableItems(vs: Values) { vs.Cons? ==> Printable(vs.head) && PrintableItems(vs.tail) }

  predicate PrintableFields(f: Fields<Value>) { f.Field? ==> Printable(f.value) && PrintableFields(f.rest) }

  /** The value up to key order and the string/buffer distinction. */
  function Meaning(v: Value): Value {
    match v
    case Buf(b) => Str(b)
    case List(items) => List(MeaningItems(items))
    case Dict(fields) => Dict(Sort(MeaningFields(fields)))
    case _ => v
  }

  function MeaningItems(vs: Values): Values {
    match vs
    case Nil => Nil
    case Cons(v, rest) => Cons(Meaning(v), MeaningItems(rest))
  }

  function MeaningFields(f: Fields<Value>): Fields<Value> {
    match f
    case Empty => Empty
    case Field(k, v, rest) => Field(k, Meaning(v), MeaningFields(rest))
  }

  /** Values in normal form: strings only, keys strictly ascending everywhere. */
  predicate Normal(v: Value) {
    match v
    case Int(_) => true
    case Str(_) => true
    case Buf(_) => false
    case Other => false
    case List(items) => NormalItems(items)
    case Dict(fields) => Ascending(fields, None) && NormalFields(fields)
  }

  predicate NormalItems(vs: Values) { vs.Cons? ==> Normal(vs.head) && NormalItems(vs.tail) }

  predicate NormalFields(f: Fields<Value>) { f.Field? ==> Normal(f.value) && NormalFields(f.rest) }

  // ---------- the specification decoder ----------

  datatype Decoded<T> = Fail | Ok(value: T, rest: string)

  /** "<length>:<text>" with a canonical length, counted in UTF-16 units. */
  function DecodeString(t: string): (r: Decoded<string>)
    ensures r.Ok? ==> |r.rest| < |t|
  {
    var k := DigitRun(t);
    if !IsNumeral(t[..k]) || k == |t| || t[k] != ':' then Fail
    else
      match UnitPrefix(t[k + 1..], DecimalValue(t[..k]))
      case None => Fail
      case Some(n) => Ok(t[k + 1..][..n], t[k + 1..][n..])
  }

  /** "<numeral>e". */
  function DecodeNat(t: string): (r: Decoded<nat>)
    ensures r.Ok? ==> |r.rest| < |t|
  {
    var k := DigitRun(t);
    if !IsNumeral(t[..k]) || k == |t| || t[k] != 'e' then Fail
    else Ok(DecimalValue(t[..k]), t[k + 1..])
  }

  /** "<integer>e" with a canonical integer: no negative zero. */
  function DecodeInt(t: string): (r: Decoded<int>)
    ensures r.Ok? ==> |r.rest| < |t|
  {
    if t != "" && t[0] == '-' then
      match DecodeNat(t[1..])
      case Fail => Fail
      case Ok(n, rest) => if n == 0 then Fail else Ok(-(n as int), rest)
    else
      match DecodeNat(t)
      case Fail => Fail
      case Ok(n, rest) => Ok(n as int, rest)
  }

  function Decode(t: string): (r: Decoded<Value>)
    ensures r.Ok? ==> |r.rest| < |t|
    decreases |t|, 0
  {
    if t == "" then Fail
    else if t[0] == 'i' then
      match DecodeInt(t[1..])
      case Fail => Fail
      case Ok(n, rest) => Ok(Int(n), rest)
    else if t[0] == 'l' then
      match DecodeItems(t[1..])
      case Fail => Fail
      case Ok(vs, rest) => Ok(List(vs), rest)
    else if t[0] == 'd' then
      match DecodeFields(t[1..], None)
      case Fail => Fail
      case Ok(f, rest) => Ok(Dict(f), rest)
    else
      match DecodeString(t)
      case Fail => Fail
      case Ok(s, rest) => Ok(Str(s), rest)
  }

  function DecodeItems(t: string): (r: Decoded<Values>)
    ensures r.Ok? ==> |r.rest| < |t|
    decreases |t|, 1
  {
    if t == "" then Fail
    else if t[0] == 'e' then Ok(Nil, t[1..])
    else
      match Decode(t)
      case Fail => Fail
      case Ok(v, t') =>
        match DecodeItems(t')
        case Fail => Fail
        case Ok(vs, rest) => Ok(Cons(v, vs), rest)
  }

  function DecodeFields(t: string, lo: Option<string>): (r: Decoded<Fields<Value>>)
    ensures r.Ok? ==> |r.rest| < |t|
    decreases |t|, 1
  {
    if t == "" then Fail
    else if t[0] == 'e' then Ok(Empty, t[1..])
    else
      match DecodeString(t)
      case Fail => Fail
      case Ok(k, t') =>
        if !Above(lo, k) then Fail
        else
          match Decode(t')
          case Fail => Fail
          case Ok(v, t'') =>
            match DecodeFields(t'', Some(k))
            case Fail => Fail
            case Ok(f, rest) => Ok(Field(k, v, f), rest)
  }

  // ---------- decoding inverts printing ----------

  lemma DecodePrintedString(s: string, rest: string)
    ensures DecodeString(PrintString(s) + rest) == Ok(s, rest)
    ensures IsDigit(PrintString(s)[0])
  {
    var d := Decimal(Units(s));
    DecimalIsNumeral(Units(s));
    UnitPrefixOf(s, rest);
    DecodeParts(d, s, rest);
    Regroup(d, ":", s, rest);
    StartsWith(d, s);
  }

  lemma StartsWith(d: string, s: string)
    requires d != ""
    ensures (d + (":" + s))[0] == d[0] && d + (":" + s) == d + ":" + s
  {
  }

  lemma DecodeParts(d: string, s: string, rest: string)
    requires IsNumeral(d) && UnitPrefix(s + rest, DecimalValue(d)) == Some(|s|)
    ensures DecodeString(d + (":" + (s + rest))) == Ok(s, rest)
  {
    var t := d + (":" + (s + rest));
    DigitRunOf(d, ":" + (s + rest));
    assert t[..|d|] == d && t[|d| + 1..] == s + rest;
    assert (s + rest)[..|s|] == s && (s + rest)[|s|..] == rest;
  }

  lemma DecodePrintedNat(n: nat, rest: string)
    ensures DecodeNat(Decimal(n) + "e" + rest) == Ok(n, rest)
    ensures IsDigit(Decimal(n)[0])
  {
    var d := Decimal(n);
    var t := d + "e" + rest;
    DecimalIsNumeral(n);
    DigitRunOf(d, "e" + rest);
    assert t == d + ("e" + rest);
    assert t[..|d|] == d && t[|d| + 1..] == rest;
  }

  lemma DecodePrintedInt(n: int, rest: string)
    ensures DecodeInt(PrintInt(n) + "e" + rest) == Ok(n, rest)
  {
    if n < 0 {
      DecodePrintedNat(-n, rest);
      DecodeSigned(Decimal(-n) + "e" + rest, -n, rest);
      SignFirst(Decimal(-n), rest);
    } else {
      DecodePrintedNat(n, rest);
      DecodeUnsigned(Decimal(n), n, rest);
    }
  }

  lemma SignFirst(d: string, rest: string)
    ensures "-" + d + "e" + rest == "-" + (d + "e" + rest)
  {
  }

  lemma DecodeSigned(u: string, n: nat, rest: string)
    requires DecodeNat(u) == Ok(n, rest) && n > 0
    ensures DecodeInt("-" + u) == Ok(-(n as int), rest)
  {
  }

  lemma DecodeUnsigned(d: string, n: nat, rest: string)
    requires d != "" && IsDigit(d[0]) && DecodeNat(d + "e" + rest) == Ok(n, rest)
    ensures DecodeInt(d + "e" + rest) == Ok(n, rest)
  {
  }

  lemma {:induction false} DecodeNormal(v: Value, rest: string)
    requires Normal(v)
    ensures Encode(v) != "" && Encode(v)[0] != 'e'
    ensures Decode(Encode(v) + rest) == Ok(v, rest)
    decreases v
  {
    match v
    case Int(n) =>
      DecodePrintedInt(n, rest);
      Tail('i', PrintInt(n) + "e", rest);
      assert Encode(v) == "i" + (PrintInt(n) + "e");
    case Str(s) =>
      DecodePrintedString(s, rest);
      assert (PrintString(s) + rest)[0] == PrintString(s)[0];
    case List(items) =>
      DecodeNormalItems(items, rest);
      Tail('l', EncodeItems(items), rest);
    case Dict(f) =>
      DecodeNormalFields(f, None, rest);
      AscendingEncoded(f, None);
      SortOfAscending(EncodeFields(f), None);
      Tail('d', Join(EncodeFields(f)), rest);
  }

  lemma Tail(c: char, a: string, b: string)
    ensures ([c] + a + b)[0] == c && ([c] + a + b)[1..] == a + b
  {
  }

  lemma {:induction false} DecodeNormalItems(vs: Values, rest: string)
    requires NormalItems(vs)
    ensures DecodeItems(EncodeItems(vs) + rest) == Ok(vs, rest)
    decreases vs
  {
    if vs.Cons? {
      var first, others := Encode(vs.head), EncodeItems(vs.tail);
      DecodeNormal(vs.head, others + rest);
      DecodeNormalItems(vs.tail, rest);
      assert (first + others) + rest == first + (others + rest);
      assert (first + (others + rest))[0] == first[0];
    } else {
      Tail('e', "", rest);
      assert "" + rest == rest;
    }
  }

  lemma {:induction false} DecodeNormalFields(f: Fields<Value>, lo: Option<string>, rest: string)
    requires NormalFields(f) && Ascending(f, lo)
    ensures DecodeFields(Join(EncodeFields(f)) + rest, lo) == Ok(f, rest)
    decreases f
  {
    if f.Field? {
      var tail := Join(EncodeFields(f.rest));
      DecodeNormal(f.value, tail + rest);
      DecodeNormalFields(f.rest, Some(f.key), rest);
      var t := PrintString(f.key) + (Encode(f.value) + (tail + rest));
      DecodePrintedString(f.key, Encode(f.value) + (tail + rest));
      assert t[0] == PrintString(f.key)[0];
      Regroup(PrintString(f.key), Encode(f.value), tail, rest);
    } else {
      assert ("e" + rest)[1..] == rest;
    }
  }

  lemma Regroup(a: string, b: string, c: string, d: string)
    ensures (a + (b + c)) + d == a + (b + (c + d))
  {
  }

  lemma {:induction false} AscendingEncoded(f: Fields<Value>, lo: Option<string>)
    ensures Ascending(EncodeFields(f), lo) <==> Ascending(f, lo)
  {
    if f.Field? {
      AscendingEncoded(f.rest, Some(f.key));
    }
  }

  // ---------- printing depends on the meaning only ----------

  lemma {:induction false} EncodeMeaning(v: Value)
    ensures Encode(Meaning(v)) == Encode(v)
    decreases v
  {
    match v
    case List(items) => EncodeMeaningItems(items);
    case Dict(f) =>
      EncodeMeaningFields(f);
      EncodeSorted(MeaningFields(f));
      SortTwice(EncodeFields(f));
    case _ =>
  }

  lemma {:induction false} EncodeMeaningItems(vs: Values)
    ensures EncodeItems(MeaningItems(vs)) == EncodeItems(vs)
    decreases vs
  {
    if vs.Cons? {
      EncodeMeaning(vs.head);
      EncodeMeaningItems(vs.tail);
    }
  }

  lemma {:induction false} EncodeMeaningFields(f: Fields<Value>)
    ensures EncodeFields(MeaningFields(f)) == EncodeFields(f)
    decreases f
  {
    if f.Field? {
      EncodeMeaning(f.value);
      EncodeMeaningFields(f.rest);
    }
  }

  lemma {:induction false} EncodeInserted(k: string, v: Value, f: Fields<Value>)
    ensures EncodeFields(Insert(k, v, f)) == Insert(k, Encode(v), EncodeFields(f))
  {
    if f.Field? {
      EncodeInserted(k, v, f.rest);
    }
  }

  lemma {:induction false} EncodeSorted(f: Fields<Value>)
    ensures EncodeFields(Sort(f)) == Sort(EncodeFields(f))
  {
    if f.Field? {
      EncodeSorted(f.rest);
      EncodeInserted(f.key, f.value, Sort(f.rest));
    }
  }

  /** Ascending order that admits repeated keys. */
  predicate Weakly<T>(f: Fields<T>) {
    f.Field? && f.rest.Field? ==> !Less(f.rest.key, f.key) && Weakly(f.rest)
  }

  lemma {:induction false} InsertWeakly<T>(k: string, v: T, f: Fields<T>)
    requires Weakly(f)
    ensures Weakly(Insert(k, v, f))
  {
    if f.Field? && Less(f.key, k) {
      LessTotal(f.key, k);
      if f.rest.Field? {
        InsertWeakly(k, v, f.rest);
      }
    }
  }

  lemma {:induction false} SortWeakly<T>(f: Fields<T>)
    ensures Weakly(Sort(f))
  {
    if f.Field? {
      SortWeakly(f.rest);
      InsertWeakly(f.key, f.value, Sort(f.rest));
    }
  }

  lemma {:induction false} SortOfWeakly<T>(f: Fields<T>)
    requires Weakly(f)
    ensures Sort(f) == f
  {
    if f.Field? && f.rest.Field? {
      SortOfWeakly(f.rest);
    }
  }

  lemma SortTwice<T>(f: Fields<T>)
    ensures Sort(Sort(f)) == Sort(f)
  {
    SortWeakly(f);
    SortOfWeakly(Sort(f));
  }

  lemma {:induction false} MeaningIsNormal(v: Value)
    requires Valid(v) && Printable(v)
    ensures Normal(Meaning(v))
    decreases v
  {
    match v
    case List(items) => MeaningItemsNormal(items);
    case Dict(f) =>
      MeaningFieldsNormal(f);
      SortAscending(MeaningFields(f));
      SortedNormal(MeaningFields(f));
    case _ =>
  }

  lemma {:induction false} MeaningItemsNormal(vs: Values)
    requires ValidItems(vs) && PrintableItems(vs)
    ensures NormalItems(MeaningItems(vs))
    decreases vs
  {
    if vs.Cons? {
      MeaningIsNormal(vs.head);
      MeaningItemsNormal(vs.tail);
    }
  }

  lemma {:induction false} MeaningFieldsNormal(f: Fields<Value>)
    requires Distinct(f) && ValidFields(f) && PrintableFields(f)
    ensures Distinct(MeaningFields(f)) && NormalFields(MeaningFields(f))
    ensures forall k :: HasKey(MeaningFields(f), k) <==> HasKey(f, k)
    decreases f
  {
    if f.Field? {
      MeaningIsNormal(f.value);
      MeaningFieldsNormal(f.rest);
    }
  }

  lemma {:induction false} SortedNormal(f: Fields<Value>)
    ensures NormalFields(Sort(f)) <==> NormalFields(f)
  {
    if f.Field? {
      SortedNormal(f.rest);
      InsertedNormal(f.key, f.value, Sort(f.rest));
    }
  }

  lemma {:induction false} InsertedNormal(k: string, v: Value, f: Fields<Value>)
    ensures NormalFields(Insert(k, v, f)) <==> Normal(v) && NormalFields(f)
  {
    if f.Field? {
      InsertedNormal(k, v, f.rest);
    }
  }

  // ---------- main results ----------

  /** Decoding a printed value, whatever follows it, gives back its meaning and what followed. */
  lemma RoundTrip(v: Value, rest: string)
    requires Valid(v) && Printable(v)
    ensures Decode(Encode(v) + rest) == Ok(Meaning(v), rest)
  {
    MeaningIsNormal(v);
    EncodeMeaning(v);
    DecodeNormal(Meaning(v), rest);
  }

  lemma CutAt(t: string, k: nat, n: nat)
    requires k < |t| && t[k] == ':' && n <= |t| - k - 1
    ensures t == t[..k] + ":" + t[k + 1..][..n] + t[k + 1..][n..]
  {
  }

  lemma DecodedStringWasPrinted(t: string)
    ensures DecodeString(t).Ok? ==> t == PrintString(DecodeString(t).value) + DecodeString(t).rest
  {
    if DecodeString(t).Ok? {
      var k := DigitRun(t);
      NumeralIsDecimal(t[..k]);
      var n := |DecodeString(t).value|;
      CutAt(t, k, n);
    }
  }

  lemma DecodedNatWasPrinted(t: string)
    ensures DecodeNat(t).Ok? ==> t == Decimal(DecodeNat(t).value) + "e" + DecodeNat(t).rest
  {
    if DecodeNat(t).Ok? {
      var k := DigitRun(t);
      NumeralIsDecimal(t[..k]);
      assert t == t[..k] + "e" + t[k + 1..];
    }
  }

  lemma DecodedIntWasPrinted(t: string)
    ensures DecodeInt(t).Ok? ==> t == PrintInt(DecodeInt(t).value) + "e" + DecodeInt(t).rest
  {
    if DecodeInt(t).Ok? {
      if t[0] == '-' {
        DecodedNatWasPrinted(t[1..]);
        Signed(t, Decimal(DecodeNat(t[1..]).value), DecodeNat(t[1..]).rest);
      } else {
        DecodedNatWasPrinted(t);
      }
    }
  }

  lemma Signed(t: string, d: string, rest: string)
    requires t != "" && t[0] == '-' && t[1..] == d + "e" + rest
    ensures t == "-" + d + "e" + rest
  {
  }

  lemma Wrapped(t: string, c: char, body: string, rest: string)
    requires t != "" && t[0] == c && t[1..] == body + rest
    ensures t == [c] + body + rest
  {
  }

  /** Whatever the decoder accepts is the printing of the value it returns, which is in normal form. */
  lemma {:induction false} DecodedWasPrinted(t: string)
    ensures Decode(t).Ok? ==> Normal(Decode(t).value) && t == Encode(Decode(t).value) + Decode(t).rest
    decreases |t|, 0
  {
    if Decode(t).Ok? {
      var u, rest := t[1..], Decode(t).rest;
      if t[0] == 'i' {
        DecodedIntWasPrinted(u);
        Wrapped(t, 'i', PrintInt(DecodeInt(u).value) + "e", rest);
        assert "i" + (PrintInt(DecodeInt(u).value) + "e") == "i" + PrintInt(DecodeInt(u).value) + "e";
      } else if t[0] == 'l' {
        DecodedItemsWerePrinted(u);
        Wrapped(t, 'l', EncodeItems(DecodeItems(u).value), rest);
      } else if t[0] == 'd' {
        DecodedFieldsWerePrinted(u, None);
        var f := DecodeFields(u, None).value;
        AscendingEncoded(f, None);
        SortOfAscending(EncodeFields(f), None);
        Wrapped(t, 'd', Join(EncodeFields(f)), rest);
      } else {
        DecodedStringWasPrinted(t);
      }
    }
  }

  lemma ItemsPrinted(t: string, v: Value, vs: Values, u: string, rest: string)
    requires t == Encode(v) + u && u == EncodeItems(vs) + rest
    ensures t == EncodeItems(Cons(v, vs)) + rest
  {
  }

  lemma {:induction false} DecodedItemsWerePrinted(t: string)
    ensures DecodeItems(t).Ok? ==>
              NormalItems(DecodeItems(t).value) &&
              t == EncodeItems(DecodeItems(t).value) + DecodeItems(t).rest
    decreases |t|, 1
  {
    if DecodeItems(t).Ok? {
      if t[0] == 'e' {
        assert t == "e" + t[1..];
      } else {
        DecodedWasPrinted(t);
        var v := Decode(t);
        DecodedItemsWerePrinted(v.rest);
        var vs := DecodeItems(v.rest);
        ItemsPrinted(t, v.value, vs.value, v.rest, vs.rest);
      }
    }
  }

  lemma {:induction false} DecodedFieldsWerePrinted(t: string, lo: Option<string>)
    ensures DecodeFields(t, lo).Ok? ==>
              var f := DecodeFields(t, lo).value;
              NormalFields(f) && Ascending(f, lo) &&
              t == Join(EncodeFields(f)) + DecodeFields(t, lo).rest
    decreases |t|, 1
  {
    if DecodeFields(t, lo).Ok? {
      if t[0] == 'e' {
        assert t == "e" + t[1..];
      } else {
        var key := DecodeString(t);
        DecodedStringWasPrinted(t);
        DecodedWasPrinted(key.rest);
        var v := Decode(key.rest);
        DecodedFieldsWerePrinted(v.rest, Some(key.value));
        var f := DecodeFields(v.rest, Some(key.value));
        Regroup(PrintString(key.value), Encode(v.value), Join(EncodeFields(f.value)), f.rest);
      }
    }
  }

  /** The decoder accepts exactly the printings of normal values, and printing is its inverse. */
  lemma DecoderIsInverse(t: string, v: Value, rest: string)
    ensures Decode(t) == Ok(v, rest) <==> Normal(v) && t == Encode(v) + rest
  {
    DecodedWasPrinted(t);
    if Normal(v) {
      DecodeNormal(v, rest);
    }
  }

  /** The round trip holds for exactly the values without a part the printer drops. */
  lemma RoundTripsExactly(v: Value, rest: string)
    requires Valid(v)
    ensures Decode(Encode(v) + rest) == Ok(Meaning(v), rest) <==> Printable(v)
  {
    if Printable(v) {
      RoundTrip(v, rest);
    } else {
      DecodedWasPrinted(Encode(v) + rest);
      if Normal(Meaning(v)) {
        NormalMeaningPrintable(v);
      }
    }
  }

  lemma {:induction false} NormalMeaningPrintable(v: Value)
    requires Normal(Meaning(v))
    ensures Printable(v)
    decreases v
  {
    match v
    case List(items) => NormalItemsPrintable(items);
    case Dict(f) =>
      SortedNormal(MeaningFields(f));
      NormalFieldsPrintable(f);
    case _ =>
  }

  lemma {:induction false} NormalItemsPrintable(vs: Values)
    requires NormalItems(MeaningItems(vs))
    ensures PrintableItems(vs)
    decreases vs
  {
    if vs.Cons? {
      NormalMeaningPrintable(vs.head);
      NormalItemsPrintable(vs.tail);
    }
  }

  lemma {:induction false} NormalFieldsPrintable(f: Fields<Value>)
    requires NormalFields(MeaningFields(f))
    ensures PrintableFields(f)
    decreases f
  {
    if f.Field? {
      NormalMeaningPrintable(f.value);
      NormalFieldsPrintable(f.rest);
    }
  }

  /** No printed value is a proper prefix of another; a concatenation has one reading. */
  lemma PrefixFree(x: Value, y: Value, r: string, s: string)
    requires Valid(x) && Printable(x) && Valid(y) && Printable(y)
    requires Encode(x) + r == Encode(y) + s
    ensures Meaning(x) == Meaning(y) && Encode(x) == Encode(y) && r == s
  {
    RoundTrip(x, r);
    RoundTrip(y, s);
    EncodeMeaning(x);
    EncodeMeaning(y);
  }

  /** Two values print alike exactly when they mean the same. */
  lemma PrintsAlike(x: Value, y: Value)
    requires Valid(x) && Printable(x) && Valid(y) && Printable(y)
    ensures Encode(x) == Encode(y) <==> Meaning(x) == Meaning(y)
  {
    EncodeMeaning(x);
    EncodeMeaning(y);
    if Encode(x) == Encode(y) {
      PrefixFree(x, y, "", "");
    }
  }

  /** Objects with the same properties print alike, in whatever order these were inserted. */
  lemma InsertionOrderIrrelevant(f: Fields<Value>, g: Fields<Value>)
    requires Distinct(f) && Distinct(g)
    requires forall k, v :: Has(f, k, v) <==> Has(g, k, v)
    ensures Encode(Dict(f)) == Encode(Dict(g))
  {
    SortAscending(f);
    SortAscending(g);
    forall k, v ensures Has(Sort(f), k, v) <==> Has(Sort(g), k, v) {
      SortHas(f, k, v);
      SortHas(g, k, v);
    }
    AscendingUnique(Sort(f), Sort(g), None);
    EncodeSorted(f);
    EncodeSorted(g);
  }

  /** The delimiters of BEP 3, on short strings, small integers, and lists and dictionaries of two. */
  lemma {:induction false} ShortString(s: string, d: char)
    requires |s| < 10 && d == DigitChar(|s|) && forall i :: 0 <= i < |s| ==> s[i] as int < 0x80
    ensures Encode(Str(s)) == [d] + ":" + s
  {
    AsciiUnits(s);
  }

  lemma {:induction false} SmallInteger(n: int)
    requires -10 < n < 10
    ensures Encode(Int(n)) == if n < 0 then "i-" + [DigitChar(-n)] + "e" else "i" + [DigitChar(n)] + "e"
  {
    assert Decimal(if n < 0 then -n else n) == [DigitChar(if n < 0 then -n else n)];
  }

  lemma {:induction false} TwoItems(x: Value, y: Value)
    ensures Encode(List(Cons(x, Cons(y, Nil)))) == "l" + (Encode(x) + (Encode(y) + "e"))
  {
    assert EncodeItems(Cons(y, Nil)) == Encode(y) + "e";
  }

  lemma OneField(k: string, v: Value)
    ensures EncodeFields(Field(k, v, Empty)) == Field(k, Encode(v), Empty)
  {
    assert EncodeFields(Empty) == Empty;
  }

  /** The smaller key comes first, whatever was inserted first. */
  lemma {:induction false} TwoFields(j: string, x: Value, k: string, y: Value)
    requires Less(k, j)
    ensures Encode(Dict(Field(j, x, Field(k, y, Empty)))) ==
            "d" + (Encode(Str(k)) + (Encode(y) + (Encode(Str(j)) + (Encode(x) + "e"))))
    ensures Encode(Dict(Field(k, y, Field(j, x, Empty)))) == Encode(Dict(Field(j, x, Field(k, y, Empty))))
  {
    LessTotal(k, j);
    var ex, ey := Encode(x), Encode(y);
    var sorted := Field(k, ey, Field(j, ex, Empty));
    OneField(j, x);
    OneField(k, y);
    assert EncodeFields(Field(j, x, Field(k, y, Empty))) == Field(j, ex, Field(k, ey, Empty));
    assert Sort(Field(k, ey, Empty)) == Field(k, ey, Empty) && Sort(Field(j, ex, Empty)) == Field(j, ex, Empty);
    assert Sort(Field(j, ex, Field(k, ey, Empty))) == sorted;
    assert EncodeFields(Field(k, y, Field(j, x, Empty))) == sorted;
    assert Join(Field(j, ex, Empty)) == PrintString(j) + (ex + "e");
  }

  /** Without `Printable` injectivity fails: the list that holds only null prints as the empty list. */
  lemma UnprintableVanishes()
    ensures var x, y := List(Cons(Other, Nil)), List(Nil);
            Encode(x) == Encode(y) && Meaning(x) != Meaning(y)
  {
  }
}
