/** Byte-wise order of keys, and sorting the members of an object by it. */
module KeyOrder {
  import opened Bytes

  /** The order that `sort_unstable` uses on Rust strings. */
  predicate Less(a: seq<byte>, b: seq<byte>) {
    b != [] && (a == [] || a[0] < b[0] || (a[0] == b[0] && Less(a[1..], b[1..])))
  }

  /** The texts agree before position `k`, where the first one ends or has the smaller byte. */
  ghost predicate LessAt(a: seq<byte>, b: seq<byte>, k: nat) {
    k <= |a| && k < |b| && a[..k] == b[..k] && (k < |a| ==> a[k] < b[k])
  }

  lemma {:induction false} LessIsLexicographic(a: seq<byte>, b: seq<byte>)
    ensures Less(a, b) <==> exists k: nat :: LessAt(a, b, k)
  {
    if a == [] || b == [] || a[0] != b[0] {
      assert Less(a, b) ==> LessAt(a, b, 0);
      assert forall k: nat | k > 0 && LessAt(a, b, k) :: a[..k][0] == b[..k][0];
    } else {
      LessIsLexicographic(a[1..], b[1..]);
      if k: nat :| LessAt(a[1..], b[1..], k) {
        assert a[..k + 1] == [a[0]] + a[1..][..k] && b[..k + 1] == [b[0]] + b[1..][..k];
        assert LessAt(a, b, k + 1);
      }
      if k: nat :| LessAt(a, b, k) {
        assert a[1..][..k - 1] == a[..k][1..] && b[1..][..k - 1] == b[..k][1..];
        assert LessAt(a[1..], b[1..], k - 1);
      }
    }
  }

  lemma {:induction false} Trichotomy(a: seq<byte>, b: seq<byte>)
    ensures Less(a, b) || Less(b, a) || a == b
    ensures !(Less(a, b) && Less(b, a))
    ensures a == b ==> !Less(a, b)
  {
    if a != [] && b != [] && a[0] == b[0] {
      Trichotomy(a[1..], b[1..]);
      assert a == [a[0]] + a[1..] && b == [b[0]] + b[1..];
    }
  }

  lemma {:induction false} Transitive(a: seq<byte>, b: seq<byte>, c: seq<byte>)
    requires Less(a, b) && Less(b, c)
    ensures Less(a, c)
  {
    if a != [] && a[0] == b[0] == c[0] {
      Transitive(a[1..], b[1..], c[1..]);
    }
  }

  datatype Keyed<V> = Keyed(key: seq<byte>, value: V)

  ghost predicate DistinctKeys<V(!new)>(ms: seq<Keyed<V>>) {
    forall i, j | 0 <= i < j < |ms| :: ms[i].key != ms[j].key
  }

  ghost predicate Sorted<V(!new)>(ms: seq<Keyed<V>>) {
    forall i, j | 0 <= i < j < |ms| :: Less(ms[i].key, ms[j].key)
  }

  function Insert<V(!new)>(m: Keyed<V>, ms: seq<Keyed<V>>): (r: seq<Keyed<V>>)
    ensures |r| == |ms| + 1
    ensures forall e :: e in r <==> e == m || e in ms
  {
    if ms == [] || Less(m.key, ms[0].key) then [m] + ms else [ms[0]] + Insert(m, ms[1..])
  }

  function Sort<V(!new)>(ms: seq<Keyed<V>>): (r: seq<Keyed<V>>)
    ensures |r| == |ms|
    ensures forall e :: e in r <==> e in ms
  {
    if ms == [] then [] else Insert(ms[0], Sort(ms[1..]))
  }

  lemma {:induction false} InsertSorts<V(!new)>(m: Keyed<V>, ms: seq<Keyed<V>>)
    requires Sorted(ms) && forall e | e in ms :: e.key != m.key
    ensures Sorted(Insert(m, ms))
  {
    if ms != [] {
      Trichotomy(m.key, ms[0].key);
      assert ms[0] in ms;
      if Less(m.key, ms[0].key) {
        forall j | 0 < j < |ms| ensures Less(m.key, ms[j].key) {
          Transitive(m.key, ms[0].key, ms[j].key);
        }
      } else {
        var r := Insert(m, ms[1..]);
        InsertSorts(m, ms[1..]);
        forall j | 0 <= j < |r| ensures Less(ms[0].key, r[j].key) {
          assert r[j] in r;
          if r[j] != m {
            var k :| 0 <= k < |ms| - 1 && ms[1..][k] == r[j];
          }
        }
      }
    }
  }

  /** Members with distinct keys come out in strictly increasing key order. */
  lemma {:induction false} SortSorts<V(!new)>(ms: seq<Keyed<V>>)
    requires DistinctKeys(ms)
    ensures Sorted(Sort(ms))
  {
    if ms != [] {
      SortSorts(ms[1..]);
      forall e | e in Sort(ms[1..]) ensures e.key != ms[0].key {
        assert e in ms[1..];
        var k :| 0 <= k < |ms| - 1 && ms[1..][k] == e;
      }
      InsertSorts(ms[0], Sort(ms[1..]));
    }
  }

  ghost predicate HasKey<V(!new)>(ms: seq<Keyed<V>>, key: seq<byte>) {
    exists e :: e in ms && e.key == key
  }

  lemma HeadIsLeast<V(!new)>(ms: seq<Keyed<V>>, key: seq<byte>)
    requires Sorted(ms) && HasKey(ms, key)
    ensures ms != [] && (ms[0].key == key || Less(ms[0].key, key))
  {
    var e :| e in ms && e.key == key;
    var k :| 0 <= k < |ms| && ms[k] == e;
  }

  lemma TailKeys<V(!new)>(ms: seq<Keyed<V>>, key: seq<byte>)
    requires Sorted(ms) && ms != []
    ensures HasKey(ms[1..], key) <==> HasKey(ms, key) && key != ms[0].key
  {
    if HasKey(ms[1..], key) {
      var e :| e in ms[1..] && e.key == key;
      var k :| 0 <= k < |ms| - 1 && ms[1..][k] == e;
      assert e in ms && Less(ms[0].key, ms[k + 1].key);
      Trichotomy(ms[0].key, key);
    }
    if HasKey(ms, key) && key != ms[0].key {
      var e :| e in ms && e.key == key;
      var k :| 0 <= k < |ms| && ms[k] == e;
      assert ms[1..][k - 1] == e;
    }
  }

  /** Two sorted lists with the same keys list them in the same places. */
  lemma {:induction false} SortedSameKeys<V(!new)>(xs: seq<Keyed<V>>, ys: seq<Keyed<V>>)
    requires Sorted(xs) && Sorted(ys)
    requires forall key :: HasKey(xs, key) <==> HasKey(ys, key)
    ensures |xs| == |ys| && forall i | 0 <= i < |xs| :: xs[i].key == ys[i].key
  {
    if xs == [] {
      assert ys != [] ==> ys[0] in ys && HasKey(ys, ys[0].key);
    } else {
      assert xs[0] in xs && HasKey(xs, xs[0].key);
      HeadIsLeast(ys, xs[0].key);
      assert ys[0] in ys && HasKey(ys, ys[0].key);
      HeadIsLeast(xs, ys[0].key);
      Trichotomy(xs[0].key, ys[0].key);
      forall key ensures HasKey(xs[1..], key) <==> HasKey(ys[1..], key) {
        TailKeys(xs, key);
        TailKeys(ys, key);
      }
      SortedSameKeys(xs[1..], ys[1..]);
      assert forall i | 0 < i < |xs| :: xs[i] == xs[1..][i - 1] && ys[i] == ys[1..][i - 1];
    }
  }
}

/** The canonical printer for JSON parameters, and why it identifies a value up to key order. */
module CanonicalJson {
  import opened Bytes
  import opened KeyOrder
  import Codes
  import Decimal
  import JsonNumber

  const QUOTE: byte := 0x22
  const BACKSLASH: byte := 0x5C
  const COMMA: byte := 0x2C
  const COLON: byte := 0x3A
  const LBRACKET: byte := 0x5B
  const RBRACKET: byte := 0x5D
  const LBRACE: byte := 0x7B
  const RBRACE: byte := 0x7D
  const MINUS: byte := 0x2D

  predicate IsDigit(b: byte) { 0x30 <= b <= 0x39 }

  /** The bytes that can occur in a printed number. */
  predicate IsNumberByte(b: byte) {
    IsDigit(b) || b == MINUS || b == 0x2B || b == 0x2E || b == 0x65 || b == 0x45
  }

  /** The bytes that an integer never holds. */
  predicate IsFloatByte(b: byte) { b == 0x2E || b == 0x65 || b == 0x45 }

  /** What a finite float prints as: a number of the JSON grammar with a fraction point or an exponent. */
  predicate IsFloatText(t: seq<byte>) {
    && t != [] && (IsDigit(t[0]) || t[0] == MINUS)
    && (forall i | 0 <= i < |t| :: IsNumberByte(t[i]))
    && (exists i | 0 <= i < |t| :: IsFloatByte(t[i]))
    && JsonNumber.Length(t) == |t|
  }

  lemma FloatTextExists()
    ensures IsFloatText([0x30, 0x2E, 0x35])
  {
    var t: seq<byte> := [0x30, 0x2E, 0x35];
    assert t[1] == 0x2E && t[1..] == [0x2E, 0x35] && t[1..][1..] == [0x35];
    assert JsonNumber.FracPart(t[1..]) == 2;
  }

  type FloatText = t: seq<byte> | IsFloatText(t)
    witness (FloatTextExists(); [0x30, 0x2E, 0x35])

  /** A JSON value. Strings are their UTF-8 bytes; the members of an object are in insertion order. */
  datatype Json =
    | Null
    | Bool(b: bool)
    | Int(n: int)
    | Float(text: FloatText)
    | Str(s: seq<byte>)
    | Arr(items: seq<Json>)
    | Obj(members: seq<Keyed<Json>>)

  /** The keys of every object are distinct, as in any map. */
  ghost predicate WellFormed(v: Json) {
    match v
    case Arr(items) => forall x | x in items :: WellFormed(x)
    case Obj(members) => DistinctKeys(members) && forall e | e in members :: WellFormed(e.value)
    case _ => true
  }

  /** Equal up to the order of object members, at every depth; array order counts. */
  ghost predicate Same(a: Json, b: Json) {
    match a
    case Arr(xs) => b.Arr? && |xs| == |b.items| && forall i | 0 <= i < |xs| :: Same(xs[i], b.items[i])
    case Obj(xs) =>
      && b.Obj?
      && (forall e | e in b.members :: HasKey(xs, e.key))
      && (forall e | e in xs :: exists f :: f in b.members && f.key == e.key && Same(e.value, f.value))
    case _ => a == b
  }

  function HexDigit(d: byte): byte
    requires d < 16
  {
    if d < 10 then 0x30 + d else 0x57 + d
  }

  function EscapeByte(b: byte): seq<byte> {
    if b == QUOTE then [BACKSLASH, QUOTE]
    else if b == BACKSLASH then [BACKSLASH, BACKSLASH]
    else if b == 0x08 then [BACKSLASH, 'b' as byte]
    else if b == 0x09 then [BACKSLASH, 't' as byte]
    else if b == 0x0A then [BACKSLASH, 'n' as byte]
    else if b == 0x0C then [BACKSLASH, 'f' as byte]
    else if b == 0x0D then [BACKSLASH, 'r' as byte]
    else if b < 0x20 then [BACKSLASH, 'u' as byte, '0' as byte, '0' as byte, HexDigit(b / 16), HexDigit(b % 16)]
    else [b]
  }

  function Quote(s: seq<byte>): seq<byte> {
    [QUOTE] + Codes.Flat(EscapeByte, s) + [QUOTE]
  }

  function IntText(n: int): seq<byte> {
    if n < 0 then [MINUS] + Ascii(Decimal.Print(-n)) else Ascii(Decimal.Print(n))
  }

  function Join(parts: seq<seq<byte>>): seq<byte> {
    if parts == [] then []
    else if |parts| == 1 then parts[0]
    else parts[0] + [COMMA] + Join(parts[1..])
  }

  function Canonical(v: Json): seq<byte>
    decreases v
  {
    match v
    case Null => Ascii("null")
    case Bool(b) => if b then Ascii("true") else Ascii("false")
    case Int(n) => IntText(n)
    case Float(t) => t
    case Str(s) => Quote(s)
    case Arr(items) => [LBRACKET] + Join(ItemTexts(items)) + [RBRACKET]
    case Obj(members) => [LBRACE] + Join(MemberTexts(members, Sort(members))) + [RBRACE]
  }

  function ItemTexts(items: seq<Json>): (r: seq<seq<byte>>)
    ensures |r| == |items|
    decreases items
  {
    if items == [] then [] else [Canonical(items[0])] + ItemTexts(items[1..])
  }

  /** Prints `part`, which lists some of the object's members. */
  function MemberTexts(members: seq<Keyed<Json>>, part: seq<Keyed<Json>>): (r: seq<seq<byte>>)
    requires forall e | e in part :: e in members
    ensures |r| == |part|
    decreases members, |part|
  {
    if part == [] then []
    else
      assert part[0] in members;
      [MemberText(part[0])] + MemberTexts(members, part[1..])
  }

  function MemberText(m: Keyed<Json>): seq<byte>
    decreases m
  {
    Quote(m.key) + [COLON] + Canonical(m.value)
  }

  // ----- Scalars -----

  lemma EscapesArePrefixFree()
    ensures Codes.PrefixFree(EscapeByte) && Codes.Avoids(EscapeByte, QUOTE)
  {
    forall x: byte, y: byte | EscapeByte(x) <= EscapeByte(y) ensures x == y {
      assert EscapeByte(x)[0] == EscapeByte(y)[0];
      if |EscapeByte(x)| > 1 {
        assert EscapeByte(x)[1] == EscapeByte(y)[1];
        if |EscapeByte(x)| > 2 {
          assert EscapeByte(x)[4] == EscapeByte(y)[4] && EscapeByte(x)[5] == EscapeByte(y)[5];
          assert x / 16 == y / 16 && x % 16 == y % 16;
        }
      }
    }
  }

  lemma QuoteTail(s: seq<byte>, p: seq<byte>)
    ensures (Quote(s) + p)[1..] == Codes.Flat(EscapeByte, s) + [QUOTE] + p
  {
  }

  lemma QuoteSelfDelimiting(s: seq<byte>, t: seq<byte>, p: seq<byte>, q: seq<byte>)
    requires Quote(s) + p == Quote(t) + q
    ensures s == t && p == q
  {
    EscapesArePrefixFree();
    QuoteTail(s, p);
    QuoteTail(t, q);
    Codes.SelfDelimiting(EscapeByte, QUOTE, s, t, p, q);
  }

  lemma IntTextShape(n: int)
    ensures IntText(n) != [] && (IsDigit(IntText(n)[0]) || IntText(n)[0] == MINUS)
    ensures forall i | 0 <= i < |IntText(n)| :: IsDigit(IntText(n)[i]) || (i == 0 && IntText(n)[i] == MINUS)
  {
  }

  lemma IntTextInjective(m: int, n: int)
    requires IntText(m) == IntText(n)
    ensures m == n
  {
    IntTextShape(m);
    IntTextShape(n);
    var a, b := if m < 0 then -m else m, if n < 0 then -n else n;
    assert Ascii(Decimal.Print(a))[0] != MINUS && Ascii(Decimal.Print(b))[0] != MINUS;
    assert m < 0 <==> IntText(m)[0] == MINUS;
    assert n < 0 <==> IntText(n)[0] == MINUS;
    if m < 0 {
      assert IntText(m)[1..] == Ascii(Decimal.Print(a)) && IntText(n)[1..] == Ascii(Decimal.Print(b));
    }
    AsciiInjective(Decimal.Print(a), Decimal.Print(b));
    Decimal.PrintInjective(a, b);
  }

  /** The text of a number. */
  function NumberText(v: Json): seq<byte>
    requires v.Int? || v.Float?
  {
    if v.Int? then IntText(v.n) else v.text
  }

  lemma NumberTextShape(v: Json)
    requires v.Int? || v.Float?
    ensures NumberText(v) != [] && forall i | 0 <= i < |NumberText(v)| :: IsNumberByte(NumberText(v)[i])
    ensures IsDigit(NumberText(v)[0]) || NumberText(v)[0] == MINUS
    ensures v.Float? <==> exists i | 0 <= i < |NumberText(v)| :: IsFloatByte(NumberText(v)[i])
  {
    if v.Int? {
      IntTextShape(v.n);
    }
  }

  lemma NumberTextInjective(a: Json, b: Json)
    requires (a.Int? || a.Float?) && (b.Int? || b.Float?) && NumberText(a) == NumberText(b)
    ensures a == b
  {
    NumberTextShape(a);
    NumberTextShape(b);
    if a.Int? {
      IntTextInjective(a.n, b.n);
    }
  }

  /** A text that may follow a value inside another value, or end the document. */
  predicate Delimited(p: seq<byte>) {
    p == [] || p[0] == COMMA || p[0] == RBRACKET || p[0] == RBRACE
  }

  lemma NumbersEndTogether(u: seq<byte>, v: seq<byte>, p: seq<byte>, q: seq<byte>)
    requires forall i | 0 <= i < |u| :: IsNumberByte(u[i])
    requires forall i | 0 <= i < |v| :: IsNumberByte(v[i])
    requires Delimited(p) && Delimited(q) && u + p == v + q
    ensures u == v && p == q
  {
    var l := u + p;
    assert l[..|u|] == u && l[|u|..] == p && l[..|v|] == v && l[|v|..] == q;
    assert (p != [] ==> !IsNumberByte(l[|u|])) && (q != [] ==> !IsNumberByte(l[|v|]));
    assert forall i | 0 <= i < |u| || 0 <= i < |v| :: IsNumberByte(l[i]);
  }

  /** The first byte tells the kinds of value apart. */
  lemma FirstByte(v: Json)
    ensures Canonical(v) != []
    ensures var b := Canonical(v)[0];
            && (v.Null? <==> b == 'n' as byte)
            && (v.Bool? <==> b == 't' as byte || b == 'f' as byte)
            && (v.Bool? ==> (v.b <==> b == 't' as byte))
            && (v.Int? || v.Float? <==> IsDigit(b) || b == MINUS)
            && (v.Str? <==> b == QUOTE) && (v.Arr? <==> b == LBRACKET) && (v.Obj? <==> b == LBRACE)
            && b != RBRACKET && b != RBRACE
  {
    if v.Int? || v.Float? {
      NumberTextShape(v);
    }
  }

  // ----- Injectivity up to key order -----

  /** What follows the first of the joined parts, up to and including the closing byte. */
  function Rest(parts: seq<seq<byte>>, close: byte, p: seq<byte>): seq<byte>
    requires parts != []
  {
    if |parts| == 1 then [close] + p else [COMMA] + Join(parts[1..]) + [close] + p
  }

  lemma JoinFirst(parts: seq<seq<byte>>, close: byte, p: seq<byte>)
    requires parts != []
    ensures Join(parts) + [close] + p == parts[0] + Rest(parts, close, p)
  {
  }

  /** If one list of parts is continued by a comma, so is the other, and both continue alike. */
  lemma RestsAgree(xs: seq<seq<byte>>, ys: seq<seq<byte>>, close: byte, p: seq<byte>, q: seq<byte>)
    requires xs != [] && ys != [] && close != COMMA
    requires Rest(xs, close, p) == Rest(ys, close, q)
    ensures |xs| == 1 <==> |ys| == 1
    ensures |xs| == 1 ==> p == q
    ensures |xs| > 1 ==> Join(xs[1..]) + [close] + p == Join(ys[1..]) + [close] + q
  {
    var l, r := Rest(xs, close, p), Rest(ys, close, q);
    assert |xs| == 1 <==> l[0] == close;
    assert |ys| == 1 <==> r[0] == close;
    if |xs| == 1 {
      assert l[1..] == p && r[1..] == q;
    } else {
      assert l[1..] == Join(xs[1..]) + [close] + p && r[1..] == Join(ys[1..]) + [close] + q;
    }
  }

  lemma OpenBracket(open: byte, u: seq<byte>, v: seq<byte>, close: byte, p: seq<byte>, q: seq<byte>)
    requires [open] + u + [close] + p == [open] + v + [close] + q
    ensures u + [close] + p == v + [close] + q
  {
    assert u + [close] + p == ([open] + u + [close] + p)[1..];
    assert v + [close] + q == ([open] + v + [close] + q)[1..];
  }

  lemma WordsAgree(u: seq<byte>, p: seq<byte>, q: seq<byte>)
    requires u + p == u + q
    ensures p == q
  {
    assert p == (u + p)[|u|..] && q == (u + q)[|u|..];
  }

  /** A canonical text determines its value up to key order, and where it ends. */
  lemma {:induction false} ReadBack(a: Json, b: Json, p: seq<byte>, q: seq<byte>)
    requires WellFormed(a) && WellFormed(b) && Delimited(p) && Delimited(q)
    requires Canonical(a) + p == Canonical(b) + q
    ensures Same(a, b) && p == q
    decreases a
  {
    FirstByte(a);
    FirstByte(b);
    var l, r := Canonical(a) + p, Canonical(b) + q;
    assert Canonical(a)[0] == l[0] == r[0] == Canonical(b)[0];
    match a
    case Null => WordsAgree(Canonical(a), p, q);
    case Bool(_) => WordsAgree(Canonical(a), p, q);
    case Int(_) => ReadBackNumber(a, b, p, q);
    case Float(_) => ReadBackNumber(a, b, p, q);
    case Str(s) => QuoteSelfDelimiting(s, b.s, p, q);
    case Arr(xs) => ReadBackArray(xs, b.items, p, q);
    case Obj(xs) => ReadBackObject(xs, b.members, p, q);
  }

  lemma {:induction false} ReadBackArray(xs: seq<Json>, ys: seq<Json>, p: seq<byte>, q: seq<byte>)
    requires WellFormed(Arr(xs)) && WellFormed(Arr(ys))
    requires Canonical(Arr(xs)) + p == Canonical(Arr(ys)) + q
    ensures Same(Arr(xs), Arr(ys)) && p == q
    decreases xs, 1
  {
    OpenBracket(LBRACKET, Join(ItemTexts(xs)), Join(ItemTexts(ys)), RBRACKET, p, q);
    ReadBackItems(xs, ys, p, q);
  }

  lemma {:induction false} ReadBackObject(xs: seq<Keyed<Json>>, ys: seq<Keyed<Json>>, p: seq<byte>, q: seq<byte>)
    requires WellFormed(Obj(xs)) && WellFormed(Obj(ys))
    requires Canonical(Obj(xs)) + p == Canonical(Obj(ys)) + q
    ensures Same(Obj(xs), Obj(ys)) && p == q
    decreases xs, |xs| + 1
  {
    OpenBracket(LBRACE, Join(MemberTexts(xs, Sort(xs))), Join(MemberTexts(ys, Sort(ys))), RBRACE, p, q);
    ReadBackMembers(xs, Sort(xs), ys, Sort(ys), p, q);
    SameMembers(xs, ys);
  }

  lemma ReadBackNumber(a: Json, b: Json, p: seq<byte>, q: seq<byte>)
    requires (a.Int? || a.Float?) && (b.Int? || b.Float?) && Delimited(p) && Delimited(q)
    requires Canonical(a) + p == Canonical(b) + q
    ensures a == b && p == q
  {
    NumberTextShape(a);
    NumberTextShape(b);
    NumbersEndTogether(NumberText(a), NumberText(b), p, q);
    NumberTextInjective(a, b);
  }

  lemma {:induction false} ReadBackItems(xs: seq<Json>, ys: seq<Json>, p: seq<byte>, q: seq<byte>)
    requires (forall x | x in xs :: WellFormed(x)) && (forall y | y in ys :: WellFormed(y))
    requires Join(ItemTexts(xs)) + [RBRACKET] + p == Join(ItemTexts(ys)) + [RBRACKET] + q
    ensures |xs| == |ys| && (forall i | 0 <= i < |xs| :: Same(xs[i], ys[i])) && p == q
    decreases xs, 0
  {
    var l, r := Join(ItemTexts(xs)) + [RBRACKET] + p, Join(ItemTexts(ys)) + [RBRACKET] + q;
    if xs != [] { FirstByte(xs[0]); JoinFirst(ItemTexts(xs), RBRACKET, p); }
    if ys != [] { FirstByte(ys[0]); JoinFirst(ItemTexts(ys), RBRACKET, q); }
    assert xs == [] <==> l[0] == RBRACKET;
    assert ys == [] <==> r[0] == RBRACKET;
    if xs == [] {
      assert l[1..] == p && r[1..] == q;
    } else {
      var p', q' := Rest(ItemTexts(xs), RBRACKET, p), Rest(ItemTexts(ys), RBRACKET, q);
      ReadBack(xs[0], ys[0], p', q');
      RestsAgree(ItemTexts(xs), ItemTexts(ys), RBRACKET, p, q);
      if |xs| > 1 {
        ReadBackItems(xs[1..], ys[1..], p, q);
        assert forall i | 0 < i < |xs| :: xs[i] == xs[1..][i - 1] && ys[i] == ys[1..][i - 1];
      }
    }
  }

  lemma KeyThenText(s: seq<byte>, t: seq<byte>, u: seq<byte>, v: seq<byte>, p: seq<byte>, q: seq<byte>)
    requires Quote(s) + [COLON] + u + p == Quote(t) + [COLON] + v + q
    ensures s == t && u + p == v + q
  {
    var l, r := [COLON] + u + p, [COLON] + v + q;
    assert Quote(s) + l == Quote(s) + [COLON] + u + p;
    assert Quote(t) + r == Quote(t) + [COLON] + v + q;
    QuoteSelfDelimiting(s, t, l, r);
    assert u + p == l[1..] && v + q == r[1..];
  }

  lemma {:induction false} ReadBackMember(ms: seq<Keyed<Json>>, x: Keyed<Json>, y: Keyed<Json>,
                                          p: seq<byte>, q: seq<byte>)
    requires x in ms && WellFormed(x.value) && WellFormed(y.value) && Delimited(p) && Delimited(q)
    requires MemberText(x) + p == MemberText(y) + q
    ensures x.key == y.key && Same(x.value, y.value) && p == q
    decreases ms, 0
  {
    KeyThenText(x.key, y.key, Canonical(x.value), Canonical(y.value), p, q);
    ReadBack(x.value, y.value, p, q);
  }

  ghost predicate SamePairs(xs: seq<Keyed<Json>>, ys: seq<Keyed<Json>>) {
    |xs| == |ys| && forall i | 0 <= i < |xs| :: xs[i].key == ys[i].key && Same(xs[i].value, ys[i].value)
  }

  lemma {:induction false} ReadBackMembers(
      ms: seq<Keyed<Json>>, xs: seq<Keyed<Json>>, ns: seq<Keyed<Json>>, ys: seq<Keyed<Json>>,
      p: seq<byte>, q: seq<byte>)
    requires (forall e | e in xs :: e in ms) && (forall e | e in ms :: WellFormed(e.value))
    requires (forall e | e in ys :: e in ns) && (forall e | e in ns :: WellFormed(e.value))
    requires Join(MemberTexts(ms, xs)) + [RBRACE] + p == Join(MemberTexts(ns, ys)) + [RBRACE] + q
    ensures SamePairs(xs, ys) && p == q
    decreases ms, |xs|
  {
    var tx, ty := MemberTexts(ms, xs), MemberTexts(ns, ys);
    var l, r := Join(tx) + [RBRACE] + p, Join(ty) + [RBRACE] + q;
    if xs != [] { JoinFirst(tx, RBRACE, p); }
    if ys != [] { JoinFirst(ty, RBRACE, q); }
    assert xs == [] <==> l[0] == RBRACE;
    assert ys == [] <==> r[0] == RBRACE;
    if xs == [] {
      assert l[1..] == p && r[1..] == q;
    } else {
      assert xs[0] in ms && ys[0] in ns;
      ReadBackMember(ms, xs[0], ys[0], Rest(tx, RBRACE, p), Rest(ty, RBRACE, q));
      RestsAgree(tx, ty, RBRACE, p, q);
      if |xs| > 1 {
        ReadBackMembers(ms, xs[1..], ns, ys[1..], p, q);
        assert forall i | 0 < i < |xs| :: xs[i] == xs[1..][i - 1] && ys[i] == ys[1..][i - 1];
      }
    }
  }

  lemma SameMembers(xs: seq<Keyed<Json>>, ys: seq<Keyed<Json>>)
    requires SamePairs(Sort(xs), Sort(ys))
    ensures Same(Obj(xs), Obj(ys))
  {
    var sx, sy := Sort(xs), Sort(ys);
    forall e | e in ys ensures HasKey(xs, e.key) {
      var k :| 0 <= k < |sy| && sy[k] == e;
      assert sx[k] in xs;
    }
    forall e | e in xs ensures exists f :: f in ys && f.key == e.key && Same(e.value, f.value) {
      var k :| 0 <= k < |sx| && sx[k] == e;
      assert sy[k] in ys;
    }
  }

  // ----- Same values print alike -----

  lemma {:induction false} SamePrintsAlike(a: Json, b: Json)
    requires WellFormed(a) && WellFormed(b) && Same(a, b)
    ensures Canonical(a) == Canonical(b)
    decreases a
  {
    match a
    case Arr(xs) => SameItemTexts(xs, b.items);
    case Obj(xs) =>
      SameSorted(xs, b.members);
      SameMemberTexts(xs, Sort(xs), b.members, Sort(b.members));
    case _ =>
  }

  /** Sorting brings the members of equal objects into the same places. */
  lemma SameSorted(xs: seq<Keyed<Json>>, ys: seq<Keyed<Json>>)
    requires DistinctKeys(xs) && DistinctKeys(ys) && Same(Obj(xs), Obj(ys))
    ensures SamePairs(Sort(xs), Sort(ys))
  {
    var sx, sy := Sort(xs), Sort(ys);
    SortSorts(xs);
    SortSorts(ys);
    SameKeys(xs, ys);
    SortedSameKeys(sx, sy);
    forall i | 0 <= i < |sx| ensures Same(sx[i].value, sy[i].value) {
      assert sx[i] in xs && sy[i] in ys;
      SameAtKey(xs, ys, sx[i], sy[i]);
    }
  }

  lemma SameAtKey(xs: seq<Keyed<Json>>, ys: seq<Keyed<Json>>, x: Keyed<Json>, y: Keyed<Json>)
    requires DistinctKeys(ys) && Same(Obj(xs), Obj(ys))
    requires x in xs && y in ys && x.key == y.key
    ensures Same(x.value, y.value)
  {
    var f :| f in ys && f.key == x.key && Same(x.value, f.value);
    var m, n :| 0 <= m < |ys| && ys[m] == f && 0 <= n < |ys| && ys[n] == y;
    assert m == n;
  }

  lemma SameKeys(xs: seq<Keyed<Json>>, ys: seq<Keyed<Json>>)
    requires Same(Obj(xs), Obj(ys))
    ensures forall key :: HasKey(Sort(xs), key) <==> HasKey(Sort(ys), key)
  {
    forall key ensures HasKey(Sort(xs), key) <==> HasKey(Sort(ys), key) {
      if HasKey(Sort(xs), key) {
        var e :| e in Sort(xs) && e.key == key;
        assert e in xs;
        var f :| f in ys && f.key == e.key && Same(e.value, f.value);
        assert f in Sort(ys);
      }
      if HasKey(Sort(ys), key) {
        var e :| e in Sort(ys) && e.key == key;
        assert e in ys && HasKey(xs, e.key);
        var f :| f in xs && f.key == e.key;
        assert f in Sort(xs);
      }
    }
  }

  lemma {:induction false} SameItemTexts(xs: seq<Json>, ys: seq<Json>)
    requires (forall x | x in xs :: WellFormed(x)) && (forall y | y in ys :: WellFormed(y))
    requires |xs| == |ys| && forall i | 0 <= i < |xs| :: Same(xs[i], ys[i])
    ensures ItemTexts(xs) == ItemTexts(ys)
    decreases xs
  {
    if xs != [] {
      SamePrintsAlike(xs[0], ys[0]);
      SameItemTexts(xs[1..], ys[1..]);
    }
  }

  lemma {:induction false} SameMemberTexts(
      ms: seq<Keyed<Json>>, xs: seq<Keyed<Json>>, ns: seq<Keyed<Json>>, ys: seq<Keyed<Json>>)
    requires (forall e | e in xs :: e in ms) && (forall e | e in ms :: WellFormed(e.value))
    requires (forall e | e in ys :: e in ns) && (forall e | e in ns :: WellFormed(e.value))
    requires SamePairs(xs, ys)
    ensures MemberTexts(ms, xs) == MemberTexts(ns, ys)
    decreases ms, |xs|
  {
    if xs != [] {
      assert xs[0] in ms && ys[0] in ns;
      SamePrintsAlike(xs[0].value, ys[0].value);
      SameMemberTexts(ms, xs[1..], ns, ys[1..]);
    }
  }

  /** Canonical texts are equal exactly when the values are the same up to key order at every depth. */
  lemma CanonicalIffSame(a: Json, b: Json)
    requires WellFormed(a) && WellFormed(b)
    ensures Canonical(a) == Canonical(b) <==> Same(a, b)
  {
    if Same(a, b) {
      SamePrintsAlike(a, b);
    }
    if Canonical(a) == Canonical(b) {
      assert Canonical(a) + [] == Canonical(b) + [];
      ReadBack(a, b, [], []);
    }
  }

  // ----- No raw NUL -----

  predicate NulFree(s: seq<byte>) {
    forall i | 0 <= i < |s| :: s[i] != 0
  }

  lemma {:induction false} QuoteNulFree(s: seq<byte>)
    ensures NulFree(Codes.Flat(EscapeByte, s)) && NulFree(Quote(s))
  {
    if s != [] {
      QuoteNulFree(s[1..]);
    }
  }

  lemma {:induction false} JoinNulFree(parts: seq<seq<byte>>)
    requires forall t | t in parts :: NulFree(t)
    ensures NulFree(Join(parts))
  {
    if |parts| > 1 {
      JoinNulFree(parts[1..]);
      assert parts[0] in parts;
    }
  }

  /** Control characters are always escaped, so no canonical text holds a raw NUL. */
  lemma {:induction false} CanonicalNulFree(v: Json)
    ensures NulFree(Canonical(v))
    decreases v
  {
    match v
    case Int(_) => NumberTextShape(v);
    case Float(_) => NumberTextShape(v);
    case Str(s) => QuoteNulFree(s);
    case Arr(items) =>
      ItemsNulFree(items);
      JoinNulFree(ItemTexts(items));
    case Obj(members) =>
      MembersNulFree(members, Sort(members));
      JoinNulFree(MemberTexts(members, Sort(members)));
    case _ =>
  }

  lemma {:induction false} ItemsNulFree(items: seq<Json>)
    ensures forall t | t in ItemTexts(items) :: NulFree(t)
    decreases items
  {
    if items != [] {
      CanonicalNulFree(items[0]);
      ItemsNulFree(items[1..]);
    }
  }

  lemma {:induction false} MembersNulFree(members: seq<Keyed<Json>>, part: seq<Keyed<Json>>)
    requires forall e | e in part :: e in members
    ensures forall t | t in MemberTexts(members, part) :: NulFree(t)
    decreases members, |part|
  {
    if part != [] {
      assert part[0] in members;
      QuoteNulFree(part[0].key);
      CanonicalNulFree(part[0].value);
      MembersNulFree(members, part[1..]);
    }
  }
}

/** The request hash that an approval is compared against. */
module RequestHash {
  import opened Bytes
  import opened CanonicalJson

  /** What the digest is taken of. */
  function PreImage(action: seq<byte>, params: Json): seq<byte> {
    action + [0] + Canonical(params)
  }

  /** `digest` stands for SHA-256 followed by hex encoding. */
  function ComputeRequestHash(digest: seq<byte> -> seq<byte>, action: seq<byte>, params: Json): seq<byte> {
    digest(PreImage(action, params))
  }

  /** The NUL that ends the action is the last one, so it can be found again. */
  lemma LastNul(u: seq<byte>, v: seq<byte>, p: seq<byte>, q: seq<byte>)
    requires u + [0] + p == v + [0] + q
    requires NulFree(p) && NulFree(q)
    ensures u == v && p == q
  {
    var l, r := u + [0] + p, v + [0] + q;
    assert l[|u|] == 0 && r[|v|] == 0;
    assert forall i | |u| < i < |l| :: l[i] == p[i - |u| - 1] != 0;
    assert forall i | |v| < i < |r| :: r[i] == q[i - |v| - 1] != 0;
    assert |u| == |v|;
    assert u == l[..|u|] && v == r[..|v|] && p == l[|u| + 1..] && q == r[|v| + 1..];
  }

  /** The pre-image determines the action, whatever bytes its name holds, and the parameters up to
      key order. */
  lemma PreImageIffSameRequest(a: seq<byte>, x: Json, b: seq<byte>, y: Json)
    requires WellFormed(x) && WellFormed(y)
    ensures PreImage(a, x) == PreImage(b, y) <==> a == b && Same(x, y)
  {
    CanonicalIffSame(x, y);
    if PreImage(a, x) == PreImage(b, y) {
      CanonicalNulFree(x);
      CanonicalNulFree(y);
      LastNul(a, b, Canonical(x), Canonical(y));
    }
  }

  /** Two requests with one hash are the same request, or their pre-images are two different
      messages with the same digest. */
  lemma EqualHashes(digest: seq<byte> -> seq<byte>, a: seq<byte>, x: Json, b: seq<byte>, y: Json)
    requires WellFormed(x) && WellFormed(y)
    requires ComputeRequestHash(digest, a, x) == ComputeRequestHash(digest, b, y)
    ensures
      || (a == b && Same(x, y))
      || (PreImage(a, x) != PreImage(b, y) && digest(PreImage(a, x)) == digest(PreImage(b, y)))
  {
    PreImageIffSameRequest(a, x, b, y);
  }
}
