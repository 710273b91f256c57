/** Text the way the server's language handles it: decimal printing, `parseInt`, `split` and hexadecimal. */
module Text {

  datatype Option<+T> = None | Some(value: T)

  // ---------- decimal ----------

  predicate IsDigit(c: char) { '0' <= c <= '9' }

  predicate AllDigits(s: string) { forall i :: 0 <= i < |s| ==> IsDigit(s[i]) }

  function DigitChar(d: nat): (c: char)
    requires d < 10
    ensures IsDigit(c) && DigitValue(c) == d
  {
    ('0' as int + d) as char
  }

  function DigitValue(c: char): (d: nat)
    requires IsDigit(c)
    ensures d < 10
  {
    c as int - '0' as int
  }

  /** Template-string printing of a natural number. */
  function Decimal(n: nat): string {
    if n < 10 then [DigitChar(n)] else Decimal(n / 10) + [DigitChar(n % 10)]
  }

  /** Template-string printing of an integer. */
  function PrintInt(n: int): string { if n < 0 then "-" + Decimal(-n) else Decimal(n) }

  /** The number a digit string denotes. */
  function DecimalValue(s: string): nat
    requires AllDigits(s)
  {
    if s == "" then 0 else 10 * DecimalValue(s[..|s| - 1]) + DigitValue(s[|s| - 1])
  }

  /** Digit strings without a superfluous leading zero. */
  predicate IsNumeral(s: string) { s != "" && AllDigits(s) && (s[0] == '0' ==> |s| == 1) }

  lemma {:induction false} DecimalIsNumeral(n: nat)
    ensures IsNumeral(Decimal(n)) && (Decimal(n)[0] == '0' ==> n == 0)
    ensures DecimalValue(Decimal(n)) == n
  {
    if n >= 10 {
      DecimalIsNumeral(n / 10);
      var s := Decimal(n);
      assert s[..|s| - 1] == Decimal(n / 10);
    }
  }

  lemma {:induction false} NumeralIsDecimal(s: string)
    requires IsNumeral(s)
    ensures Decimal(DecimalValue(s)) == s
    ensures s[0] != '0' ==> DecimalValue(s) > 0
  {
    if |s| > 1 {
      var p := s[..|s| - 1];
      assert p[0] == s[0];
      NumeralIsDecimal(p);
      assert s == p + [s[|s| - 1]];
    } else {
      assert s[..0] == "";
      assert s == [s[0]];
    }
  }

  /** Length of the longest prefix of digits. */
  function DigitRun(s: string): (k: nat)
    ensures k <= |s| && AllDigits(s[..k]) && (k < |s| ==> !IsDigit(s[k]))
  {
    if s == "" || !IsDigit(s[0]) then 0
    else
      var k := 1 + DigitRun(s[1..]);
      assert s[..k] == [s[0]] + s[1..][..k - 1];
      k
  }

  lemma {:induction false} DigitRunOf(d: string, rest: string)
    requires AllDigits(d) && (rest != "" ==> !IsDigit(rest[0]))
    ensures DigitRun(d + rest) == |d|
  {
    if d == "" {
      assert d + rest == rest;
    } else {
      DigitRunOf(d[1..], rest);
      assert (d + rest)[1..] == d[1..] + rest;
    }
  }

  /** White space that `trim` and `parseInt` skip. */
  predicate IsSpace(c: char) {
    '\t' <= c <= '\r' || c in " \U{A0}\U{1680}\U{2028}\U{2029}\U{202F}\U{205F}\U{3000}\U{FEFF}" ||
    '\U{2000}' <= c <= '\U{200A}'
  }

  function TrimStart(s: string): string {
    if s != "" && IsSpace(s[0]) then TrimStart(s[1..]) else s
  }

  function TrimEnd(s: string): string {
    if s != "" && IsSpace(s[|s| - 1]) then TrimEnd(s[..|s| - 1]) else s
  }

  function Trim(s: string): string { TrimEnd(TrimStart(s)) }

  /** In ASCII exactly the tab, the line and page breaks and the blank are white space. */
  lemma AsciiSpace(c: char)
    requires c as int < 0x80
    ensures IsSpace(c) <==> c as int in {9, 10, 11, 12, 13, 32}
  {
  }

  predicate AllSpace(s: string) { forall i :: 0 <= i < |s| ==> IsSpace(s[i]) }

  /** Text that neither begins nor ends with white space. */
  predicate Bare(s: string) { s != "" && !IsSpace(s[0]) && !IsSpace(s[|s| - 1]) }

  /** `line` is `t` with white space on either side. */
  ghost predicate Surrounds(line: string, t: string) {
    exists a, b :: line == a + (t + b) && AllSpace(a) && AllSpace(b)
  }

  lemma {:induction false} TrimStartParts(s: string) returns (a: string)
    ensures s == a + TrimStart(s) && AllSpace(a)
    ensures TrimStart(s) != "" ==> !IsSpace(TrimStart(s)[0])
  {
    a := "";
    if s != "" && IsSpace(s[0]) {
      var a' := TrimStartParts(s[1..]);
      a := [s[0]] + a';
      assert s == [s[0]] + s[1..];
    }
  }

  lemma {:induction false} TrimEndParts(s: string) returns (b: string)
    ensures s == TrimEnd(s) + b && AllSpace(b)
    ensures TrimEnd(s) != "" ==> !IsSpace(TrimEnd(s)[|TrimEnd(s)| - 1])
  {
    b := "";
    if s != "" && IsSpace(s[|s| - 1]) {
      var front, c := s[..|s| - 1], s[|s| - 1];
      var b' := TrimEndParts(front);
      b := b' + [c];
      Longer(s, TrimEnd(front), b', c);
    }
  }

  lemma Longer(s: string, t: string, b: string, c: char)
    requires s != "" && s[..|s| - 1] == t + b && s[|s| - 1] == c
    ensures s == t + (b + [c])
  {
    assert s == s[..|s| - 1] + [c];
  }

  lemma {:induction false} TrimStartOf(a: string, s: string)
    requires AllSpace(a) && (s != "" ==> !IsSpace(s[0]))
    ensures TrimStart(a + s) == s
  {
    if a == "" {
      assert a + s == s;
    } else {
      TrimStartOf(a[1..], s);
      assert (a + s)[1..] == a[1..] + s;
    }
  }

  lemma {:induction false} TrimEndOf(s: string, b: string)
    requires AllSpace(b) && (s != "" ==> !IsSpace(s[|s| - 1]))
    ensures TrimEnd(s + b) == s
  {
    if b == "" {
      assert s + b == s;
    } else {
      TrimEndOf(s, b[..|b| - 1]);
      assert (s + b)[..|s + b| - 1] == s + b[..|b| - 1];
    }
  }

  /** Trimming to a non-empty text is removing the white space around it. */
  lemma {:induction false} TrimSpec(line: string, t: string)
    requires t != ""
    ensures Trim(line) == t <==> Bare(t) && Surrounds(line, t)
  {
    if Trim(line) == t {
      var a := TrimStartParts(line);
      var b := TrimEndParts(TrimStart(line));
      assert TrimStart(line)[0] == t[0];
      assert line == a + (t + b);
    }
    if Bare(t) && Surrounds(line, t) {
      var a, b :| line == a + (t + b) && AllSpace(a) && AllSpace(b);
      assert (t + b)[0] == t[0];
      TrimStartOf(a, t + b);
      TrimEndOf(t, b);
    }
  }

  /** `parseInt(s, 10)`; None is NaN. */
  function ParseInt(s: string): Option<int> {
    var t := TrimStart(s);
    var signed := t != "" && t[0] in "+-";
    var u := if signed then t[1..] else t;
    var k := DigitRun(u);
    if k == 0 then None
    else if signed && t[0] == '-' then Some(-(DecimalValue(u[..k]) as int))
    else Some(DecimalValue(u[..k]))
  }

  lemma ParseIntOfDecimal(n: nat)
    ensures ParseInt(Decimal(n)) == Some(n)
  {
    var s := Decimal(n);
    DecimalIsNumeral(n);
    assert IsDigit(s[0]);
    assert TrimStart(s) == s;
    DigitRunOf(s, "");
    assert s + "" == s && s[..|s|] == s;
  }

  /** White space, a sign or none, digits: read as the signed number, whatever follows. */
  lemma {:induction false} ParseIntReads(blank: string, sign: string, digits: string, rest: string)
    requires AllSpace(blank) && sign in {"", "+", "-"} && digits != "" && AllDigits(digits)
    requires rest != "" ==> !IsDigit(rest[0])
    ensures ParseInt(blank + (sign + (digits + rest))) ==
            Some(if sign == "-" then -(DecimalValue(digits) as int) else DecimalValue(digits))
  {
    var u := digits + rest;
    assert u[0] == digits[0];
    DigitRunOf(digits, rest);
    assert u[..|digits|] == digits;
    assert sign == "" ==> (sign + u)[0] == u[0];
    assert sign != "" ==> (sign + u)[0] == sign[0];
    TrimStartOf(blank, sign + u);
    SignedDigits(blank + (sign + u), sign, u);
  }

  lemma {:induction false} SignedDigits(s: string, sign: string, u: string)
    requires sign in {"", "+", "-"} && u != "" && IsDigit(u[0]) && TrimStart(s) == sign + u
    ensures var n := DecimalValue(u[..DigitRun(u)]);
            ParseInt(s) == Some(if sign == "-" then -(n as int) else n)
  {
    if sign == "" {
      assert sign + u == u;
      Unsigned(s, u);
    } else {
      assert (sign + u)[1..] == u && (sign + u)[0] == sign[0];
      Signed(s, sign + u);
    }
  }

  lemma {:induction false} Unsigned(s: string, u: string)
    requires u != "" && IsDigit(u[0]) && TrimStart(s) == u
    ensures ParseInt(s) == Some(DecimalValue(u[..DigitRun(u)]))
  {
  }

  lemma {:induction false} Signed(s: string, t: string)
    requires |t| > 1 && (t[0] == '+' || t[0] == '-') && IsDigit(t[1]) && TrimStart(s) == t
    ensures var n := DecimalValue(t[1..][..DigitRun(t[1..])]);
            ParseInt(s) == Some(if t[0] == '-' then -(n as int) else n)
  {
  }

  /** Without a digit after the white space and the sign the result is NaN. */
  lemma {:induction false} ParseIntFails(blank: string, sign: string, rest: string)
    requires AllSpace(blank) && sign in {"", "+", "-"}
    requires rest != "" ==> !IsDigit(rest[0]) && !IsSpace(rest[0]) && (sign == "" ==> rest[0] !in "+-")
    ensures ParseInt(blank + (sign + rest)) == None
  {
    if sign != "" {
      assert (sign + rest)[0] == sign[0] && (sign + rest)[1..] == rest;
    } else {
      assert sign + rest == rest;
    }
    TrimStartOf(blank, sign + rest);
  }

  // ---------- search and split ----------

  predicate At(s: string, p: string, i: nat) { i + |p| <= |s| && s[i..i + |p|] == p }

  /** `indexOf`: the first occurrence of `p`, or None. */
  function IndexOf(s: string, p: string): (r: Option<nat>)
    requires p != ""
    ensures r.Some? ==> At(s, p, r.value) && forall j: nat | j < r.value :: !At(s, p, j)
    ensures r.None? ==> forall j: nat :: !At(s, p, j)
  {
    if |s| < |p| then None
    else if s[..|p|] == p then Some(0)
    else
      var r := IndexOf(s[1..], p);
      assert forall j: nat | j > 0 && At(s, p, j) :: At(s[1..], p, j - 1);
      assert forall j: nat | At(s[1..], p, j) :: At(s, p, j + 1);
      if r.None? then None else Some(r.value + 1)
  }

  /** `s.split(sep)`. */
  function Split(s: string, sep: string): (parts: seq<string>)
    requires sep != ""
    ensures |parts| > 0
  {
    match IndexOf(s, sep)
    case None => [s]
    case Some(i) => [s[..i]] + Split(s[i + |sep|..], sep)
  }

  lemma SplitOne(s: string, c: char)
    requires c !in s
    ensures Split(s, [c]) == [s]
  {
    forall i: nat | i < |s| ensures !At(s, [c], i) {
      assert s[i..i + 1][0] == s[i];
    }
  }

  lemma SplitFirst(a: string, c: char, b: string)
    requires c !in a
    ensures Split(a + [c] + b, [c]) == [a] + Split(b, [c])
  {
    var s := a + [c] + b;
    assert s[|a|..|a| + 1] == [c];
    assert At(s, [c], |a|);
    forall j: nat | j < |a| ensures !At(s, [c], j) {
      assert s[j..j + 1][0] == a[j];
    }
    assert IndexOf(s, [c]) == Some(|a|);
    assert s[..|a|] == a && s[|a| + 1..] == b;
  }

  /** Lines put together, a separator between each two. */
  function Join(parts: seq<string>, c: char): string
    requires parts != []
  {
    if |parts| == 1 then parts[0] else parts[0] + [c] + Join(parts[1..], c)
  }

  ghost predicate AllWithout(parts: seq<string>, c: char) { forall i :: 0 <= i < |parts| ==> c !in parts[i] }

  /** Splitting takes apart what was joined. */
  lemma {:induction false} SplitJoined(parts: seq<string>, c: char)
    requires parts != [] && AllWithout(parts, c)
    ensures Split(Join(parts, c), [c]) == parts
  {
    if |parts| == 1 {
      SplitOne(parts[0], c);
    } else {
      SplitJoined(parts[1..], c);
      SplitFirst(parts[0], c, Join(parts[1..], c));
    }
  }

  /** Every text is its parts joined. */
  lemma {:induction false} JoinSplit(s: string, c: char)
    ensures AllWithout(Split(s, [c]), c) && Join(Split(s, [c]), c) == s
  {
    FirstSeparator(s, c);
    match IndexOf(s, [c])
    case None =>
    case Some(i) =>
      var rest := s[i + 1..];
      JoinSplit(rest, c);
      JoinMore(s[..i], Split(rest, [c]), c);
  }

  lemma JoinMore(part: string, parts: seq<string>, c: char)
    requires parts != [] && AllWithout(parts, c) && c !in part
    ensures AllWithout([part] + parts, c) && Join([part] + parts, c) == part + [c] + Join(parts, c)
  {
    assert ([part] + parts)[1..] == parts;
  }

  lemma {:induction false} FirstSeparator(s: string, c: char)
    ensures IndexOf(s, [c]).None? ==> c !in s
    ensures IndexOf(s, [c]).Some? ==>
              var i := IndexOf(s, [c]).value;
              i < |s| && c !in s[..i] && s == s[..i] + [c] + s[i + 1..]
  {
    forall i: nat | i < |s| ensures s[i] == c <==> At(s, [c], i) {
      assert s[i..i + 1] == [s[i]];
    }
  }

  // ---------- insertion-ordered sets ----------

  predicate NoRepeats<T(==)>(s: seq<T>) { forall i, j :: 0 <= i < j < |s| ==> s[i] != s[j] }

  /** `set.add` for each element of `more`, on a set listed in insertion order. */
  function AddAll<T(==)>(s: seq<T>, more: seq<T>): seq<T> {
    if more == [] then s
    else
      var s' := AddAll(s, more[..|more| - 1]);
      var x := more[|more| - 1];
      if x in s' then s' else s' + [x]
  }

  lemma {:induction false} AddAllIsUnion<T>(s: seq<T>, more: seq<T>)
    ensures s <= AddAll(s, more)
    ensures NoRepeats(s) ==> NoRepeats(AddAll(s, more))
    ensures forall x :: x in AddAll(s, more) <==> x in s || x in more
  {
    if more != [] {
      var front, x := more[..|more| - 1], more[|more| - 1];
      assert more == front + [x];
      AddAllIsUnion(s, front);
    }
  }

  /** Elements are added one by one, at the end, unless they are there already. */
  lemma {:induction false} AddAllInOrder<T>(s: seq<T>, more: seq<T>, x: T)
    ensures AddAll(s, []) == s
    ensures AddAll(s, more + [x]) == if x in AddAll(s, more) then AddAll(s, more) else AddAll(s, more) + [x]
  {
    assert (more + [x])[..|more|] == more;
  }

  // ---------- bytes and hexadecimal ----------

  type Byte = b: int | 0 <= b < 256

  /** The digit for a value below 16: '0' to '9', then 'a' to 'f'. */
  predicate IsHexDigit(c: char, d: nat) {
    if d < 10 then c as int - '0' as int == d else d < 16 && c as int - 'a' as int == d - 10
  }

  function HexChar(d: nat): (c: char)
    requires d < 16
    ensures IsHexDigit(c, d)
  {
    "0123456789abcdef"[d]
  }

  function HexValue(c: char): (d: Option<nat>)
    ensures d.Some? ==> d.value < 16
  {
    if '0' <= c <= '9' then Some(c as int - '0' as int)
    else if 'a' <= c <= 'f' then Some(c as int - 'a' as int + 10)
    else if 'A' <= c <= 'F' then Some(c as int - 'A' as int + 10)
    else None
  }

  /** `buffer.toString('hex')`. */
  function Hex(b: seq<Byte>): string {
    if b == [] then "" else [HexChar(b[0] / 16), HexChar(b[0] % 16)] + Hex(b[1..])
  }

  /** `Buffer.from(s, 'hex')`: stops at the first pair that is not two hexadecimal digits. */
  function FromHex(s: string): seq<Byte> {
    if |s| < 2 || HexValue(s[0]).None? || HexValue(s[1]).None? then []
    else [16 * HexValue(s[0]).value + HexValue(s[1]).value] + FromHex(s[2..])
  }

  lemma {:induction false} HexRoundTrip(b: seq<Byte>)
    ensures FromHex(Hex(b)) == b
  {
    if b != [] {
      HexRoundTrip(b[1..]);
      var h := Hex(b);
      assert h[2..] == Hex(b[1..]);
      HexDigitRoundTrip(b[0] / 16);
      HexDigitRoundTrip(b[0] % 16);
      assert b == [b[0]] + b[1..];
    }
  }

  /** Each byte is printed as its two digits, the higher one first. */
  lemma {:induction false} HexDigits(b: seq<Byte>, i: nat)
    requires i < |b|
    ensures |Hex(b)| == 2 * |b|
    ensures IsHexDigit(Hex(b)[2 * i], b[i] / 16) && IsHexDigit(Hex(b)[2 * i + 1], b[i] % 16)
  {
    HexLength(b);
    if i > 0 {
      HexDigits(b[1..], i - 1);
    }
  }

  lemma {:induction false} HexLength(b: seq<Byte>)
    ensures |Hex(b)| == 2 * |b|
  {
    if b != [] {
      HexLength(b[1..]);
    }
  }

  lemma HexDigitRoundTrip(d: nat)
    requires d < 16
    ensures HexValue(HexChar(d)) == Some(d)
  {
  }

  /** No byte can be read from the start of the text. */
  predicate NoHexPair(s: string) { |s| < 2 || HexValue(s[0]).None? || HexValue(s[1]).None? }

  /** Reading ignores case and stops where no further byte can be read. */
  lemma {:induction false} FromHexReads(text: string, b: seq<Byte>, tail: string)
    requires Lower(text) == Hex(b) && NoHexPair(tail)
    ensures FromHex(text + tail) == b
  {
    if b == [] {
      assert text + tail == tail;
    } else {
      HexLength(b);
      LowerDrop(text, 2);
      FromHexReads(text[2..], b[1..], tail);
      EitherCase(text[0], b[0] / 16);
      EitherCase(text[1], b[0] % 16);
      ReadPair(text, tail, b);
    }
  }

  lemma ReadPair(text: string, tail: string, b: seq<Byte>)
    requires |text| >= 2 && b != [] && FromHex(text[2..] + tail) == b[1..]
    requires HexValue(text[0]) == Some(b[0] / 16) && HexValue(text[1]) == Some(b[0] % 16)
    ensures FromHex(text + tail) == b
  {
    assert (text + tail)[2..] == text[2..] + tail;
    assert b == [b[0]] + b[1..];
  }

  lemma {:induction false} LowerDrop(s: string, k: nat)
    requires k <= |s|
    ensures Lower(s)[k..] == Lower(s[k..])
  {
    LowerUnique(s[k..], Lower(s)[k..]);
  }

  lemma EitherCase(c: char, d: nat)
    requires d < 16 && LowersTo(c, HexChar(d))
    ensures HexValue(c) == Some(d)
  {
  }

  // ---------- UTF-8 ----------

  function Utf8(c: char): seq<Byte> {
    var n := c as int;
    if n < 0x80 then [n]
    else if n < 0x800 then [0xC0 + n / 64, 0x80 + n % 64]
    else if n < 0x10000 then [0xE0 + n / 4096, 0x80 + n / 64 % 64, 0x80 + n % 64]
    else [0xF0 + n / 262144, 0x80 + n / 4096 % 64, 0x80 + n / 64 % 64, 0x80 + n % 64]
  }

  /** `Buffer.from(s)`. */
  function Utf8All(s: string): seq<Byte> { if s == "" then [] else Utf8(s[0]) + Utf8All(s[1..]) }

  /** The UTF-16 units of a character: itself, or a surrogate pair. */
  function Utf16(c: char): (u: seq<nat>)
    ensures 1 <= |u| <= 2
  {
    var n := c as int;
    if n < 0x10000 then [n] else [0xD800 + (n - 0x10000) / 1024, 0xDC00 + (n - 0x10000) % 1024]
  }

  function Utf16All(s: string): seq<nat> { if s == "" then [] else Utf16(s[0]) + Utf16All(s[1..]) }

  /** `s.length`: the number of UTF-16 units. */
  function Units(s: string): nat { |Utf16All(s)| }

  /** How many characters make up exactly `n` units at the start of a text. */
  function UnitPrefix(s: string, n: nat): (k: Option<nat>)
    ensures k.Some? ==> k.value <= |s| && Units(s[..k.value]) == n
  {
    if n == 0 then Some(0)
    else if s == "" || n < |Utf16(s[0])| then None
    else
      match UnitPrefix(s[1..], n - |Utf16(s[0])|)
      case None => None
      case Some(k) =>
        assert s[..k + 1][1..] == s[1..][..k];
        Some(k + 1)
  }

  lemma {:induction false} UnitPrefixOf(s: string, rest: string)
    ensures UnitPrefix(s + rest, Units(s)) == Some(|s|)
  {
    if s != "" {
      UnitPrefixOf(s[1..], rest);
      assert (s + rest)[1..] == s[1..] + rest;
    }
  }

  predicate IsAscii(s: string) { s != "" ==> s[0] as int < 0x80 && IsAscii(s[1..]) }

  /** A text has as many bytes as UTF-16 units exactly when it is ASCII; otherwise it has more. */
  lemma {:induction false} BytesVersusUnits(s: string)
    ensures |Utf8All(s)| >= Units(s)
    ensures |Utf8All(s)| == Units(s) <==> IsAscii(s)
  {
    if s != "" {
      BytesVersusUnits(s[1..]);
    }
  }

  lemma {:induction false} UnitsAppend(s: string, t: string)
    ensures Units(s + t) == Units(s) + Units(t)
  {
    if s == "" {
      assert s + t == t;
    } else {
      UnitsAppend(s[1..], t);
      assert (s + t)[1..] == s[1..] + t;
    }
  }

  lemma {:induction false} AsciiUnits(s: string)
    requires forall i :: 0 <= i < |s| ==> s[i] as int < 0x80
    ensures Units(s) == |s|
  {
    if s != "" {
      AsciiUnits(s[1..]);
    }
  }

  lemma {:induction false} UnitsBound(s: string)
    ensures Units(s) >= |s| && (IsAscii(s) ==> Units(s) == |s|)
  {
    if s != "" {
      UnitsBound(s[1..]);
    }
  }

  // ---------- lower case ----------

  /** `d` is the small letter of a capital `c`, and `c` itself otherwise. */
  predicate LowersTo(c: char, d: char) {
    if 'A' <= c <= 'Z' then 'a' <= d <= 'z' && d as int - 'a' as int == c as int - 'A' as int else d == c
  }

  /** `toLowerCase` on ASCII letters. */
  function Lower(s: string): (t: string)
    ensures |t| == |s| && forall i :: 0 <= i < |s| ==> LowersTo(s[i], t[i])
  {
    if s == "" then ""
    else [if 'A' <= s[0] <= 'Z' then (s[0] as int + 32) as char else s[0]] + Lower(s[1..])
  }

  /** There is one lower-case form. */
  lemma {:induction false} LowerUnique(s: string, t: string)
    requires |t| == |s| && forall i :: 0 <= i < |s| ==> LowersTo(s[i], t[i])
    ensures t == Lower(s)
  {
  }

  lemma {:induction false} LowerKeeps(s: string)
    requires forall i :: 0 <= i < |s| ==> !('A' <= s[i] <= 'Z')
    ensures Lower(s) == s
  {
  }

  lemma {:induction false} LowerUnits(s: string)
    ensures Units(Lower(s)) == Units(s)
  {
    if s != "" {
      LowerUnits(s[1..]);
      assert Lower(s)[1..] == Lower(s[1..]);
    }
  }

  lemma LowerTwice(s: string)
    ensures Lower(Lower(s)) == Lower(s)
  {
  }
}
