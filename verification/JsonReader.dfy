/** The grammar of numbers in section 6 of RFC 8259. Each function gives the length of the longest part of its kind
    at the front of a text, 0 when there is none. */
module JsonNumber {
  import opened Bytes

  predicate IsDigit(b: byte) { 0x30 <= b <= 0x39 }

  function Digits(s: seq<byte>): (n: nat)
    ensures n <= |s| && (forall i | 0 <= i < n :: IsDigit(s[i])) && (n < |s| ==> !IsDigit(s[n]))
  {
    if s == [] || !IsDigit(s[0]) then 0 else 1 + Digits(s[1..])
  }

  function MinusPart(s: seq<byte>): nat { if s != [] && s[0] == 0x2D then 1 else 0 }

  /** A zero, or digits that do not start with one. */
  function IntPart(s: seq<byte>): (n: nat)
    ensures n <= |s|
  {
    if s != [] && s[0] == 0x30 then 1 else Digits(s)
  }

  function FracPart(s: seq<byte>): (n: nat)
    ensures n <= |s|
  {
    if s != [] && s[0] == 0x2E && Digits(s[1..]) > 0 then 1 + Digits(s[1..]) else 0
  }

  function SignPart(s: seq<byte>): nat { if s != [] && (s[0] == 0x2B || s[0] == 0x2D) then 1 else 0 }

  function ExpPart(s: seq<byte>): (n: nat)
    ensures n <= |s|
  {
    if s == [] || !(s[0] == 0x65 || s[0] == 0x45) then 0
    else
      var k := 1 + SignPart(s[1..]);
      if Digits(s[k..]) > 0 then k + Digits(s[k..]) else 0
  }

  /** The integer with its sign. */
  function IntegerLength(s: seq<byte>): (n: nat)
    ensures n <= |s|
  {
    var m := MinusPart(s);
    if IntPart(s[m..]) == 0 then 0 else m + IntPart(s[m..])
  }

  /** The number up to its exponent. */
  function FixedLength(s: seq<byte>): (n: nat)
    ensures n <= |s|
  {
    var i := IntegerLength(s);
    i + FracPart(s[i..])
  }

  /** The whole number. */
  function Length(s: seq<byte>): (n: nat)
    ensures n <= |s|
  {
    if IntegerLength(s) == 0 then 0
    else
      var f := FixedLength(s);
      f + ExpPart(s[f..])
  }

  // ----- What follows a number does not change it -----

  /** The text does not start with a byte that could continue a number. */
  predicate Apart(p: seq<byte>) {
    p == [] || !(IsDigit(p[0]) || p[0] == 0x2B || p[0] == 0x2D || p[0] == 0x2E || p[0] == 0x45 || p[0] == 0x65)
  }

  lemma Shift(u: seq<byte>, p: seq<byte>, k: nat)
    requires k <= |u|
    ensures (u + p)[k..] == u[k..] + p
  {
  }

  lemma {:induction false} DigitsThen(u: seq<byte>, p: seq<byte>)
    requires Apart(p)
    ensures Digits(u + p) == Digits(u)
  {
    if u == [] {
      assert u + p == p;
    } else {
      Shift(u, p, 1);
      DigitsThen(u[1..], p);
    }
  }

  lemma FracThen(u: seq<byte>, p: seq<byte>)
    requires Apart(p)
    ensures FracPart(u + p) == FracPart(u)
  {
    if u == [] {
      assert u + p == p;
    } else {
      Shift(u, p, 1);
      DigitsThen(u[1..], p);
    }
  }

  lemma ExpThen(u: seq<byte>, p: seq<byte>)
    requires Apart(p)
    ensures ExpPart(u + p) == ExpPart(u)
  {
    if u == [] {
      assert u + p == p;
    } else {
      Shift(u, p, 1);
      assert SignPart(u[1..] + p) == SignPart(u[1..]) by {
        if u[1..] == [] { assert u[1..] + p == p; }
      }
      var k := 1 + SignPart(u[1..]);
      Shift(u, p, k);
      DigitsThen(u[k..], p);
    }
  }

  lemma IntegerThen(u: seq<byte>, p: seq<byte>)
    requires Apart(p)
    ensures IntegerLength(u + p) == IntegerLength(u)
  {
    if u == [] {
      assert u + p == p;
    } else {
      var m := MinusPart(u);
      Shift(u, p, m);
      DigitsThen(u[m..], p);
      assert u[m..] == [] ==> u[m..] + p == p;
    }
  }

  lemma FixedThen(u: seq<byte>, p: seq<byte>)
    requires Apart(p)
    ensures FixedLength(u + p) == FixedLength(u)
  {
    IntegerThen(u, p);
    Shift(u, p, IntegerLength(u));
    FracThen(u[IntegerLength(u)..], p);
  }

  lemma LengthThen(u: seq<byte>, p: seq<byte>)
    requires Apart(p)
    ensures Length(u + p) == Length(u)
  {
    IntegerThen(u, p);
    FixedThen(u, p);
    Shift(u, p, FixedLength(u));
    ExpThen(u[FixedLength(u)..], p);
  }
}

/** A reader for JSON texts, written from RFC 8259 with its own byte values. Of the optional white space of section 2
    it accepts none, so that whatever it accepts is a JSON text in compact form. */
module JsonReader {
  import opened Wrappers
  import opened Bytes
  import opened KeyOrder
  import opened CanonicalJson
  import Codes
  import Decimal
  import JsonNumber
  import RequestHash
  import Rfc3629

  /** What was read, and what follows it. */
  datatype Read<T> = Read(value: T, rest: seq<byte>)

  // ----- Strings (section 7) -----

  function HexValue(b: byte): Option<nat> {
    if 0x30 <= b <= 0x39 then Some(b as int - 0x30)
    else if 0x41 <= b <= 0x46 then Some(b as int - 0x37)
    else if 0x61 <= b <= 0x66 then Some(b as int - 0x57)
    else None
  }

  /** Four hexadecimal digits. */
  function CodeUnit(s: seq<byte>): (r: Option<nat>)
    ensures r.Some? ==> |s| >= 4
  {
    if |s| < 4 then None
    else
      match (HexValue(s[0]), HexValue(s[1]), HexValue(s[2]), HexValue(s[3]))
      case (Some(a), Some(b), Some(c), Some(d)) => Some(0x1000 * a + 0x100 * b + 0x10 * c + d)
      case _ => None
  }

  /** A `\u` escape behind its two bytes, or two of them that form a surrogate pair. */
  function ReadUnicode(s: seq<byte>): (r: Option<Read<seq<byte>>>)
    ensures r.Some? ==> |r.value.rest| < |s|
  {
    match CodeUnit(s)
    case None => None
    case Some(u) =>
      if 0 <= u < 0xD800 || 0xE000 <= u < 0x10000 then Some(Read(Rfc3629.Encode(u), s[4..]))
      else if 0xD800 <= u < 0xDC00 && |s| >= 6 && s[4] == 0x5C && s[5] == 0x75 then
        match CodeUnit(s[6..])
        case None => None
        case Some(v) =>
          if 0xDC00 <= v < 0xE000
          then Some(Read(Rfc3629.Encode(0x10000 + 0x400 * (u - 0xD800) + (v - 0xDC00)), s[10..]))
          else None
      else None
  }

  /** An escape behind its backslash. */
  function ReadEscape(s: seq<byte>): (r: Option<Read<seq<byte>>>)
    ensures r.Some? ==> |r.value.rest| < |s|
  {
    if s == [] then None
    else if s[0] == 0x22 || s[0] == 0x5C || s[0] == 0x2F then Some(Read([s[0]], s[1..]))
    else if s[0] == 0x62 then Some(Read([0x08], s[1..]))
    else if s[0] == 0x66 then Some(Read([0x0C], s[1..]))
    else if s[0] == 0x6E then Some(Read([0x0A], s[1..]))
    else if s[0] == 0x72 then Some(Read([0x0D], s[1..]))
    else if s[0] == 0x74 then Some(Read([0x09], s[1..]))
    else if s[0] == 0x75 then ReadUnicode(s[1..])
    else None
  }

  function Prepend<T>(u: seq<T>, r: Option<Read<seq<T>>>): Option<Read<seq<T>>> {
    match r
    case None => None
    case Some(read) => Some(Read(u + read.value, read.rest))
  }

  /** The characters of a string up to its closing quotation mark; control characters must be escaped. */
  function ReadChars(s: seq<byte>): (r: Option<Read<seq<byte>>>)
    ensures r.Some? ==> |r.value.rest| < |s|
    decreases |s|
  {
    if s == [] || s[0] < 0x20 then None
    else if s[0] == 0x22 then Some(Read([], s[1..]))
    else if s[0] == 0x5C then
      match ReadEscape(s[1..])
      case None => None
      case Some(read) => Prepend(read.value, ReadChars(read.rest))
    else Prepend([s[0]], ReadChars(s[1..]))
  }

  // ----- Values (sections 3 to 6) -----

  function ReadWord(s: seq<byte>, word: seq<byte>, v: Json): (r: Option<Read<Json>>)
    requires word != []
    ensures r.Some? ==> |r.value.rest| < |s|
  {
    if word <= s then Some(Read(v, s[|word|..])) else None
  }

  function ReadNumber(s: seq<byte>): (r: Option<Read<Json>>)
    ensures r.Some? ==> |r.value.rest| < |s|
  {
    var n, m := JsonNumber.Length(s), JsonNumber.MinusPart(s);
    if n == 0 then None
    else if n == JsonNumber.IntegerLength(s) then
      match Decimal.Read(s[m..n])
      case None => None
      case Some(k) => Some(Read(Int(if m == 1 then 0 - k else k), s[n..]))
    else if IsFloatText(s[..n]) then Some(Read(Float(s[..n]), s[n..]))
    else None
  }

  function ReadValue(s: seq<byte>): (r: Option<Read<Json>>)
    ensures r.Some? ==> |r.value.rest| < |s|
    decreases |s|, 1
  {
    if s == [] then None
    else if s[0] == 0x6E then ReadWord(s, [0x6E, 0x75, 0x6C, 0x6C], Null)
    else if s[0] == 0x74 then ReadWord(s, [0x74, 0x72, 0x75, 0x65], Bool(true))
    else if s[0] == 0x66 then ReadWord(s, [0x66, 0x61, 0x6C, 0x73, 0x65], Bool(false))
    else if s[0] == 0x22 then
      match ReadChars(s[1..])
      case None => None
      case Some(read) => Some(Read(Str(read.value), read.rest))
    else if s[0] == 0x5B then
      if |s| > 1 && s[1] == 0x5D then Some(Read(Arr([]), s[2..]))
      else
        match ReadItems(s[1..])
        case None => None
        case Some(read) => Some(Read(Arr(read.value), read.rest))
    else if s[0] == 0x7B then
      if |s| > 1 && s[1] == 0x7D then Some(Read(Obj([]), s[2..]))
      else
        match ReadMembers(s[1..])
        case None => None
        case Some(read) => Some(Read(Obj(read.value), read.rest))
    else ReadNumber(s)
  }

  /** One or more values, separated by commas, up to the closing bracket. */
  function ReadItems(s: seq<byte>): (r: Option<Read<seq<Json>>>)
    ensures r.Some? ==> |r.value.rest| < |s|
    decreases |s|, 2
  {
    match ReadValue(s)
    case None => None
    case Some(item) =>
      if item.rest == [] then None
      else if item.rest[0] == 0x2C then Prepend([item.value], ReadItems(item.rest[1..]))
      else if item.rest[0] == 0x5D then Some(Read([item.value], item.rest[1..]))
      else None
  }

  /** A string, a colon and a value. */
  function ReadMember(s: seq<byte>): (r: Option<Read<Keyed<Json>>>)
    ensures r.Some? ==> |r.value.rest| < |s|
    decreases |s|, 0
  {
    if s == [] || s[0] != 0x22 then None
    else
      match ReadChars(s[1..])
      case None => None
      case Some(key) =>
        if key.rest == [] || key.rest[0] != 0x3A then None
        else
          match ReadValue(key.rest[1..])
          case None => None
          case Some(v) => Some(Read(Keyed(key.value, v.value), v.rest))
  }

  /** One or more members, separated by commas, up to the closing brace. */
  function ReadMembers(s: seq<byte>): (r: Option<Read<seq<Keyed<Json>>>>)
    ensures r.Some? ==> |r.value.rest| < |s|
    decreases |s|, 2
  {
    match ReadMember(s)
    case None => None
    case Some(m) =>
      if m.rest == [] then None
      else if m.rest[0] == 0x2C then Prepend([m.value], ReadMembers(m.rest[1..]))
      else if m.rest[0] == 0x7D then Some(Read([m.value], m.rest[1..]))
      else None
  }

  // ----- What the canonical printer writes is read back -----

  lemma HexReads(d: byte)
    requires d < 16
    ensures HexValue(HexDigit(d)) == Some(d as int)
  {
  }

  lemma ControlReads(b: byte, p: seq<byte>)
    requires b < 0x20
    ensures ReadUnicode([0x30, 0x30, HexDigit(b / 16), HexDigit(b % 16)] + p) == Some(Read([b], p))
  {
    var s := [0x30, 0x30, HexDigit(b / 16), HexDigit(b % 16)] + p;
    HexReads(b / 16);
    HexReads(b % 16);
    assert s[0] == 0x30 && s[1] == 0x30 && s[2] == HexDigit(b / 16) && s[3] == HexDigit(b % 16) && s[4..] == p;
  }

  lemma PlainReads(b: byte, p: seq<byte>)
    requires EscapeByte(b) == [b]
    ensures ReadChars([b] + p) == Prepend([b], ReadChars(p))
  {
    assert ([b] + p)[1..] == p;
  }

  lemma EscapedReads(x: byte, b: byte, p: seq<byte>)
    requires EscapeByte(b) == [0x5C, x] && x != 0x75
    ensures ReadEscape([x] + p) == Some(Read([b], p))
  {
    assert EscapeByte(b)[1] == x && ([x] + p)[1..] == p;
  }

  lemma BackslashReads(tail: seq<byte>, b: byte, p: seq<byte>)
    requires ReadEscape(tail) == Some(Read([b], p))
    ensures ReadChars([0x5C] + tail) == Prepend([b], ReadChars(p))
  {
    assert ([0x5C] + tail)[1..] == tail;
  }

  lemma EscapeShape(b: byte)
    ensures var e := EscapeByte(b);
            || e == [b]
            || (|e| == 2 && e == [0x5C, e[1]] && e[1] != 0x75)
            || (b < 0x20 && e == [0x5C] + ([0x75] + [0x30, 0x30, HexDigit(b / 16), HexDigit(b % 16)]))
  {
  }

  lemma ControlEscapeReads(b: byte, p: seq<byte>)
    requires b < 0x20
    ensures ReadEscape([0x75] + [0x30, 0x30, HexDigit(b / 16), HexDigit(b % 16)] + p) == Some(Read([b], p))
  {
    var digits := [0x30, 0x30, HexDigit(b / 16), HexDigit(b % 16)];
    ControlReads(b, p);
    assert ([0x75] + digits + p)[1..] == digits + p;
  }

  lemma Behind(x: seq<byte>, tail: seq<byte>, p: seq<byte>)
    ensures x + tail + p == x + (tail + p)
  {
  }

  lemma EscapeReads(b: byte, p: seq<byte>)
    ensures ReadChars(EscapeByte(b) + p) == Prepend([b], ReadChars(p))
  {
    var e := EscapeByte(b);
    EscapeShape(b);
    if e == [b] {
      PlainReads(b, p);
    } else {
      var tail := e[1..];
      assert e == [0x5C] + tail;
      Behind([0x5C], tail, p);
      if |e| == 2 {
        EscapedReads(e[1], b, p);
      } else {
        ControlEscapeReads(b, p);
      }
      BackslashReads(tail + p, b, p);
    }
  }

  lemma {:induction false} CharsRead(t: seq<byte>, p: seq<byte>)
    ensures ReadChars(Codes.Flat(EscapeByte, t) + [0x22] + p) == Some(Read(t, p))
  {
    if t == [] {
      assert (Codes.Flat(EscapeByte, t) + [0x22] + p)[1..] == p;
    } else {
      var s := Codes.Flat(EscapeByte, t[1..]) + [0x22] + p;
      assert Codes.Flat(EscapeByte, t) + [0x22] + p == EscapeByte(t[0]) + s;
      CharsRead(t[1..], p);
      EscapeReads(t[0], s);
      assert [t[0]] + t[1..] == t;
    }
  }

  lemma {:induction false} AllDigits(d: seq<byte>)
    requires forall i | 0 <= i < |d| :: JsonNumber.IsDigit(d[i])
    ensures JsonNumber.Digits(d) == |d|
  {
    if d != [] {
      AllDigits(d[1..]);
    }
  }

  lemma UnsignedLength(d: seq<byte>)
    requires d != [] && forall i | 0 <= i < |d| :: JsonNumber.IsDigit(d[i])
    requires d[0] == 0x30 ==> |d| == 1
    ensures JsonNumber.IntPart(d) == |d| && JsonNumber.MinusPart(d) == 0
  {
    AllDigits(d);
  }

  lemma NothingFollows(t: seq<byte>)
    requires JsonNumber.IntegerLength(t) == |t| > 0
    ensures JsonNumber.Length(t) == |t|
  {
    assert t[|t|..] == [];
  }

  lemma UnsignedNumber(d: seq<byte>)
    requires JsonNumber.IntPart(d) == |d| > 0 && JsonNumber.MinusPart(d) == 0
    ensures JsonNumber.IntegerLength(d) == JsonNumber.Length(d) == |d|
  {
    assert d[0..] == d;
    NothingFollows(d);
  }

  lemma SignedNumber(d: seq<byte>)
    requires JsonNumber.IntPart(d) == |d| > 0
    ensures var t := [0x2D] + d;
            JsonNumber.MinusPart(t) == 1 && JsonNumber.IntegerLength(t) == JsonNumber.Length(t) == |t| && t[1..] == d
  {
    var t := [0x2D] + d;
    assert t[1..] == d;
    NothingFollows(t);
  }

  lemma IntegerText(n: int)
    ensures var t := IntText(n);
            var m := if n < 0 then 1 else 0;
            && JsonNumber.IntegerLength(t) == JsonNumber.Length(t) == |t| > 0 && JsonNumber.MinusPart(t) == m
            && Decimal.Read(t[m..]) == Some(if n < 0 then 0 - n else n)
  {
    var k: nat := if n < 0 then -n else n;
    var d := Ascii(Decimal.Print(k));
    Decimal.ReadOfPrint(k);
    UnsignedLength(d);
    if n < 0 {
      SignedNumber(d);
    } else {
      UnsignedNumber(d);
      assert d[0..] == d;
    }
  }

  lemma NumberThen(t: seq<byte>, p: seq<byte>)
    requires Delimited(p) && t != []
    ensures JsonNumber.Length(t + p) == JsonNumber.Length(t)
    ensures JsonNumber.IntegerLength(t + p) == JsonNumber.IntegerLength(t)
    ensures JsonNumber.MinusPart(t + p) == JsonNumber.MinusPart(t)
  {
    JsonNumber.LengthThen(t, p);
    JsonNumber.IntegerThen(t, p);
  }

  lemma IntReads(n: int, p: seq<byte>)
    requires Delimited(p)
    ensures ReadNumber(IntText(n) + p) == Some(Read(Int(n), p))
  {
    var t := IntText(n);
    IntegerText(n);
    NumberThen(t, p);
    assert (t + p)[|t|..] == p && forall m | 0 <= m <= |t| :: (t + p)[m..|t|] == t[m..];
  }

  /** An integer has no point and no exponent. */
  lemma IntegerHasNoPoint(t: seq<byte>)
    ensures forall i | 0 <= i < JsonNumber.IntegerLength(t) :: !IsFloatByte(t[i])
  {
    var m := JsonNumber.MinusPart(t);
    assert forall i | m <= i < JsonNumber.IntegerLength(t) :: t[i] == t[m..][i - m];
  }

  lemma FloatReads(t: FloatText, p: seq<byte>)
    requires Delimited(p)
    ensures ReadNumber(t + p) == Some(Read(Float(t), p))
  {
    IntegerHasNoPoint(t);
    NumberThen(t, p);
    assert (t + p)[|t|..] == p && (t + p)[..|t|] == t;
  }

  /** The members of every object are in strictly increasing order of their keys. */
  ghost predicate KeysAscend(v: Json) {
    match v
    case Arr(items) => forall x | x in items :: KeysAscend(x)
    case Obj(members) => Sorted(members) && forall e | e in members :: KeysAscend(e.value)
    case _ => true
  }

  /** The value and what follows it came back. */
  ghost predicate Back(v: Json, p: seq<byte>, r: Option<Read<Json>>) {
    r.Some? && Same(v, r.value.value) && KeysAscend(r.value.value) && r.value.rest == p
  }

  ghost predicate ItemsBack(items: seq<Json>, p: seq<byte>, r: Option<Read<seq<Json>>>) {
    && r.Some? && r.value.rest == p && |r.value.value| == |items|
    && forall i | 0 <= i < |items| :: Same(items[i], r.value.value[i]) && KeysAscend(r.value.value[i])
  }

  ghost predicate MembersBack(part: seq<Keyed<Json>>, p: seq<byte>, r: Option<Read<seq<Keyed<Json>>>>) {
    && r.Some? && r.value.rest == p && SamePairs(part, r.value.value)
    && forall i | 0 <= i < |part| :: KeysAscend(r.value.value[i].value)
  }

  /** Behind the first part comes a comma and the other parts, or the closing byte. */
  lemma RestShape(parts: seq<seq<byte>>, close: byte, p: seq<byte>)
    requires parts != [] && (close == 0x5D || close == 0x7D)
    ensures Delimited(Rest(parts, close, p))
    ensures var r := Rest(parts, close, p);
            if |parts| == 1 then r[0] == close && r[1..] == p
            else r[0] == 0x2C && r[1..] == Join(parts[1..]) + [close] + p
  {
  }

  lemma ItemsStep(items: seq<Json>, p: seq<byte>, s: seq<byte>, first: Option<Read<Json>>,
                  others: Option<Read<seq<Json>>>)
    requires items != [] && first == ReadValue(s) && first.Some? && first.value.rest != []
    requires Back(items[0], first.value.rest, first)
    requires if |items| == 1 then first.value.rest[0] == 0x5D && first.value.rest[1..] == p
             else first.value.rest[0] == 0x2C && others == ReadItems(first.value.rest[1..])
                  && ItemsBack(items[1..], p, others)
    ensures ItemsBack(items, p, ReadItems(s))
  {
    if |items| > 1 {
      var read := [first.value.value] + others.value.value;
      assert ReadItems(s) == Some(Read(read, p));
      forall i | 0 <= i < |items| ensures Same(items[i], read[i]) && KeysAscend(read[i]) {
        assert i > 0 ==> items[i] == items[1..][i - 1] && read[i] == others.value.value[i - 1];
      }
    }
  }

  lemma {:induction false} ItemsRead(items: seq<Json>, p: seq<byte>)
    requires items != [] && forall x | x in items :: WellFormed(x)
    ensures ItemsBack(items, p, ReadItems(Join(ItemTexts(items)) + [0x5D] + p))
    decreases items
  {
    var texts := ItemTexts(items);
    var s, rest := Join(texts) + [0x5D] + p, Rest(texts, 0x5D, p);
    JoinFirst(texts, 0x5D, p);
    RestShape(texts, 0x5D, p);
    ReadsBack(items[0], rest);
    var others := None;
    if |items| > 1 {
      assert texts[1..] == ItemTexts(items[1..]);
      ItemsRead(items[1..], p);
      others := ReadItems(rest[1..]);
    }
    ItemsStep(items, p, s, ReadValue(s), others);
  }

  lemma QuoteThen(key: seq<byte>, p: seq<byte>)
    ensures var s := Quote(key) + p;
            s != [] && s[0] == 0x22 && ReadChars(s[1..]) == Some(Read(key, p))
  {
    assert (Quote(key) + p)[1..] == Codes.Flat(EscapeByte, key) + [0x22] + p;
    CharsRead(key, p);
  }

  lemma ColonThen(key: seq<byte>, text: seq<byte>, p: seq<byte>)
    ensures Quote(key) + [0x3A] + text + p == Quote(key) + ([0x3A] + (text + p))
    ensures ([0x3A] + (text + p))[1..] == text + p
  {
  }

  lemma {:induction false} MemberReads(ms: seq<Keyed<Json>>, m: Keyed<Json>, p: seq<byte>)
    requires m in ms && WellFormed(m.value) && Delimited(p)
    ensures var r := ReadMember(MemberText(m) + p);
            && r.Some? && r.value.rest == p && r.value.value.key == m.key
            && Same(m.value, r.value.value.value) && KeysAscend(r.value.value.value)
    decreases ms, 0
  {
    ColonThen(m.key, Canonical(m.value), p);
    QuoteThen(m.key, [0x3A] + (Canonical(m.value) + p));
    ReadsBack(m.value, p);
  }

  lemma PairsCons(part: seq<Keyed<Json>>, y: Keyed<Json>, ys: seq<Keyed<Json>>)
    requires part != [] && part[0].key == y.key && Same(part[0].value, y.value) && SamePairs(part[1..], ys)
    ensures SamePairs(part, [y] + ys)
  {
    forall i | 0 <= i < |part|
      ensures part[i].key == ([y] + ys)[i].key && Same(part[i].value, ([y] + ys)[i].value)
    {
      assert i > 0 ==> part[i] == part[1..][i - 1] && ([y] + ys)[i] == ys[i - 1];
    }
  }

  lemma MembersCons(part: seq<Keyed<Json>>, p: seq<byte>, y: Keyed<Json>, ys: seq<Keyed<Json>>)
    requires part != [] && part[0].key == y.key && Same(part[0].value, y.value) && KeysAscend(y.value)
    requires MembersBack(part[1..], p, Some(Read(ys, p)))
    ensures MembersBack(part, p, Some(Read([y] + ys, p)))
  {
    PairsCons(part, y, ys);
    forall i | 0 <= i < |part| ensures KeysAscend(([y] + ys)[i].value) {
      assert i > 0 ==> ([y] + ys)[i] == ys[i - 1];
    }
  }

  lemma MembersStep(part: seq<Keyed<Json>>, p: seq<byte>, s: seq<byte>, first: Option<Read<Keyed<Json>>>,
                    others: Option<Read<seq<Keyed<Json>>>>)
    requires part != [] && first == ReadMember(s) && first.Some? && first.value.rest != []
    requires first.value.value.key == part[0].key
    requires Same(part[0].value, first.value.value.value) && KeysAscend(first.value.value.value)
    requires if |part| == 1 then first.value.rest[0] == 0x7D && first.value.rest[1..] == p
             else first.value.rest[0] == 0x2C && others == ReadMembers(first.value.rest[1..])
                  && MembersBack(part[1..], p, others)
    ensures MembersBack(part, p, ReadMembers(s))
  {
    if |part| > 1 {
      assert ReadMembers(s) == Some(Read([first.value.value] + others.value.value, p));
      MembersCons(part, p, first.value.value, others.value.value);
    }
  }

  lemma {:induction false} MembersRead(ms: seq<Keyed<Json>>, part: seq<Keyed<Json>>, p: seq<byte>)
    requires part != [] && (forall e | e in part :: e in ms) && forall e | e in ms :: WellFormed(e.value)
    ensures MembersBack(part, p, ReadMembers(Join(MemberTexts(ms, part)) + [0x7D] + p))
    decreases ms, |part|
  {
    var texts := MemberTexts(ms, part);
    var s, rest := Join(texts) + [0x7D] + p, Rest(texts, 0x7D, p);
    JoinFirst(texts, 0x7D, p);
    RestShape(texts, 0x7D, p);
    assert part[0] in ms;
    MemberReads(ms, part[0], rest);
    var others := None;
    if |part| > 1 {
      assert texts[1..] == MemberTexts(ms, part[1..]);
      MembersRead(ms, part[1..], p);
      others := ReadMembers(rest[1..]);
    }
    MembersStep(part, p, s, ReadMember(s), others);
  }

  lemma KeysFromSorted(xs: seq<Keyed<Json>>, ys: seq<Keyed<Json>>)
    requires SamePairs(Sort(xs), ys)
    ensures forall e | e in ys :: HasKey(xs, e.key)
  {
    forall e | e in ys ensures HasKey(xs, e.key) {
      var k :| 0 <= k < |ys| && ys[k] == e;
      assert Sort(xs)[k] in xs;
    }
  }

  lemma SameAsSorted(xs: seq<Keyed<Json>>, ys: seq<Keyed<Json>>)
    requires SamePairs(Sort(xs), ys)
    ensures Same(Obj(xs), Obj(ys))
  {
    KeysFromSorted(xs, ys);
    var sx := Sort(xs);
    forall e | e in xs ensures exists f :: f in ys && f.key == e.key && Same(e.value, f.value) {
      var k :| 0 <= k < |sx| && sx[k] == e;
      assert ys[k] in ys;
    }
  }

  lemma BackFromSorted(xs: seq<Keyed<Json>>, ys: seq<Keyed<Json>>)
    requires DistinctKeys(xs) && SamePairs(Sort(xs), ys)
    requires forall i | 0 <= i < |ys| :: KeysAscend(ys[i].value)
    ensures Same(Obj(xs), Obj(ys)) && KeysAscend(Obj(ys))
  {
    SortSorts(xs);
    SameAsSorted(xs, ys);
  }

  lemma WordReads(word: seq<byte>, v: Json, p: seq<byte>)
    requires word != []
    ensures ReadWord(word + p, word, v) == Some(Read(v, p))
  {
    assert (word + p)[|word|..] == p;
  }

  lemma NumberReads(v: Json, p: seq<byte>)
    requires (v.Int? || v.Float?) && Delimited(p)
    ensures ReadValue(Canonical(v) + p) == Some(Read(v, p))
  {
    FirstByte(v);
    assert (Canonical(v) + p)[0] == Canonical(v)[0];
    if v.Int? {
      IntReads(v.n, p);
    } else {
      FloatReads(v.text, p);
    }
  }

  lemma ScalarReads(v: Json, p: seq<byte>)
    requires v.Null? || v.Bool? || v.Str?
    ensures ReadValue(Canonical(v) + p) == Some(Read(v, p))
  {
    match v
    case Null => WordReads([0x6E, 0x75, 0x6C, 0x6C], v, p);
    case Bool(b) =>
      WordReads([0x74, 0x72, 0x75, 0x65], Bool(true), p);
      WordReads([0x66, 0x61, 0x6C, 0x73, 0x65], Bool(false), p);
    case Str(t) => QuoteThen(t, p);
  }

  lemma Opened(open: byte, body: seq<byte>, close: byte, p: seq<byte>)
    ensures var s := [open] + body + [close] + p;
            && s[0] == open && s[1..] == body + [close] + p
            && (body == [] ==> s[1] == close && s[2..] == p)
            && (body != [] ==> s[1] == body[0])
  {
  }

  lemma ArrStep(s: seq<byte>, read: Option<Read<seq<Json>>>)
    requires |s| > 1 && s[0] == 0x5B && s[1] != 0x5D && read == ReadItems(s[1..]) && read.Some?
    ensures ReadValue(s) == Some(Read(Arr(read.value.value), read.value.rest))
  {
  }

  lemma ArrBack(items: seq<Json>, p: seq<byte>, s: seq<byte>, read: Option<Read<seq<Json>>>)
    requires ItemsBack(items, p, read) && ReadValue(s) == Some(Read(Arr(read.value.value), read.value.rest))
    ensures Back(Arr(items), p, ReadValue(s))
  {
  }

  lemma JoinStarts(parts: seq<seq<byte>>)
    requires parts != [] && parts[0] != []
    ensures Join(parts) != [] && Join(parts)[0] == parts[0][0]
  {
  }

  lemma EmptyArrReads(p: seq<byte>)
    ensures Back(Arr([]), p, ReadValue([0x5B, 0x5D] + p))
  {
    assert ([0x5B, 0x5D] + p)[2..] == p;
  }

  lemma ArrReads(items: seq<Json>, p: seq<byte>)
    requires items != [] ==> ItemsBack(items, p, ReadItems(Join(ItemTexts(items)) + [0x5D] + p))
    ensures Back(Arr(items), p, ReadValue(Canonical(Arr(items)) + p))
  {
    var body := Join(ItemTexts(items));
    var s := [0x5B] + body + [0x5D] + p;
    if items == [] {
      EmptyArrReads(p);
      assert s == [0x5B, 0x5D] + p;
    } else {
      Opened(0x5B, body, 0x5D, p);
      FirstByte(items[0]);
      JoinStarts(ItemTexts(items));
      ArrStep(s, ReadItems(body + [0x5D] + p));
      ArrBack(items, p, s, ReadItems(body + [0x5D] + p));
    }
  }

  lemma ObjStep(s: seq<byte>, read: Option<Read<seq<Keyed<Json>>>>)
    requires |s| > 1 && s[0] == 0x7B && s[1] != 0x7D && read == ReadMembers(s[1..]) && read.Some?
    ensures ReadValue(s) == Some(Read(Obj(read.value.value), read.value.rest))
  {
  }

  lemma ObjReads(members: seq<Keyed<Json>>, p: seq<byte>)
    requires DistinctKeys(members)
    requires var part := Sort(members);
             part != [] ==> MembersBack(part, p, ReadMembers(Join(MemberTexts(members, part)) + [0x7D] + p))
    ensures Back(Obj(members), p, ReadValue(Canonical(Obj(members)) + p))
  {
    var part := Sort(members);
    var texts := MemberTexts(members, part);
    var body := Join(texts);
    Opened(0x7B, body, 0x7D, p);
    if part != [] {
      JoinFirst(texts, 0x7D, p);
      assert part[0] in members && body[0] == 0x22;
      var read := ReadMembers(body + [0x7D] + p);
      ObjStep([0x7B] + body + [0x7D] + p, read);
      BackFromSorted(members, read.value.value);
    }
  }

  lemma {:induction false} ReadsBack(v: Json, p: seq<byte>)
    requires WellFormed(v) && Delimited(p)
    ensures Back(v, p, ReadValue(Canonical(v) + p))
    decreases v
  {
    match v
    case Arr(items) =>
      if items != [] { ItemsRead(items, p); }
      ArrReads(items, p);
    case Obj(members) =>
      if members != [] { MembersRead(members, Sort(members), p); }
      ObjReads(members, p);
    case Int(_) => NumberReads(v, p);
    case Float(_) => NumberReads(v, p);
    case _ => ScalarReads(v, p);
  }

  /** Canonical texts are JSON: whatever may follow one, a reader for RFC 8259 gets the value back up to the order of
      members, finds the members of every object in increasing order of their keys, and stops where the text ends. */
  lemma CanonicalIsJson(v: Json, p: seq<byte>)
    requires WellFormed(v) && Delimited(p)
    ensures exists w :: ReadValue(Canonical(v) + p) == Some(Read(w, p)) && Same(v, w) && KeysAscend(w)
  {
    ReadsBack(v, p);
    assert ReadValue(Canonical(v) + p) == Some(Read(ReadValue(Canonical(v) + p).value.value, p));
  }

  /** What is hashed for a request is the action, one NUL, and a JSON text of the parameters. */
  lemma HashedTextReads(action: seq<byte>, params: Json)
    requires WellFormed(params)
    ensures var m := RequestHash.PreImage(action, params);
            && |m| > |action| && m[..|action|] == action && m[|action|] == 0x00
            && exists w :: ReadValue(m[|action| + 1..]) == Some(Read(w, [])) && Same(params, w)
  {
    var m := RequestHash.PreImage(action, params);
    CanonicalIsJson(params, []);
    assert m[|action| + 1..] == Canonical(params) + [];
  }
}
