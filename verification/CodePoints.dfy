/** UTF-8 as section 3 of RFC 3629 writes it. */
module Rfc3629 {
  import opened Bytes
  import Codes

  /** The code points that can be encoded: all but the surrogates. */
  type Scalar = n: int | 0 <= n < 0xD800 || 0xE000 <= n <= 0x10FFFF

  function Encode(n: Scalar): seq<byte> {
    if n < 0x80 then [n as byte]
    else if n < 0x800 then [(0xC0 + n / 64) as byte, (0x80 + n % 64) as byte]
    else if n < 0x10000 then [(0xE0 + n / 4096) as byte, (0x80 + n / 64 % 64) as byte, (0x80 + n % 64) as byte]
    else
      [(0xF0 + n / 262144) as byte, (0x80 + n / 4096 % 64) as byte, (0x80 + n / 64 % 64) as byte,
       (0x80 + n % 64) as byte]
  }

  /** A text with the given code points; every Rust string is one. */
  function EncodeAll(ns: seq<Scalar>): seq<byte> {
    Codes.Flat(Encode, ns)
  }
}

/** What the sanitiser does, told by code points. */
module CodePoints {
  import opened Bytes
  import opened Rfc3629
  import opened Utf8
  import opened CharFilter
  import opened Sanitize
  import Codes

  lemma SixBitGroups(n: nat)
    ensures n == 64 * (n / 64) + n % 64
    ensures n / 64 == 64 * (n / 4096) + n / 64 % 64
    ensures n / 4096 == 64 * (n / 262144) + n / 4096 % 64
  {
    assert n / 4096 == n / 64 / 64;
    assert n / 262144 == n / 4096 / 64;
  }

  /** The bytes of a code point are one character, and the sanitiser decodes it to that code point. */
  lemma CodePointOfEncode(n: Scalar)
    ensures CodePoint(Encode(n)) == n
    ensures StartsWithChar(Encode(n)) && CharLen(Encode(n)[0]) == |Encode(n)|
  {
    var e := Encode(n);
    SixBitGroups(n);
    assert forall i | 0 < i < |e| :: IsCont(e[i]);
  }

  lemma CharThen(c: seq<byte>, rest: seq<byte>)
    requires c != [] && StartsWithChar(c) && CharLen(c[0]) == |c| && WellFormed(rest)
    ensures var s := c + rest;
            WellFormed(s) && s != [] && CharLen(s[0]) == |c| && s[..|c|] == c && s[|c|..] == rest
  {
    assert (c + rest)[|c|..] == rest;
    CharThenRest(c + rest, |c|);
  }

  lemma EncodeThen(n: Scalar, rest: seq<byte>)
    requires WellFormed(rest)
    ensures var s := Encode(n) + rest; WellFormed(s) && s != [] && CharLen(s[0]) == |Encode(n)|
    ensures var s := Encode(n) + rest; s[..|Encode(n)|] == Encode(n) && s[|Encode(n)|..] == rest
  {
    CodePointOfEncode(n);
    CharThen(Encode(n), rest);
  }

  lemma {:induction false} EncodedIsWellFormed(ns: seq<Scalar>)
    ensures WellFormed(EncodeAll(ns))
  {
    if ns != [] {
      EncodedIsWellFormed(ns[1..]);
      EncodeThen(ns[0], EncodeAll(ns[1..]));
    }
  }

  /** The list without the code points that are hidden. */
  function Without(ns: seq<Scalar>, hidden: int -> bool): seq<Scalar> {
    if ns == [] then [] else (if hidden(ns[0]) then [] else [ns[0]]) + Without(ns[1..], hidden)
  }

  lemma {:induction false} KeepByCodePoint(ns: seq<Scalar>, bad: seq<byte> -> bool, hidden: int -> bool)
    requires forall n: Scalar :: bad(Encode(n)) <==> hidden(n)
    ensures WellFormed(EncodeAll(ns)) && Keep(EncodeAll(ns), bad) == EncodeAll(Without(ns, hidden))
  {
    EncodedIsWellFormed(ns);
    if ns != [] {
      KeepByCodePoint(ns[1..], bad, hidden);
      EncodeThen(ns[0], EncodeAll(ns[1..]));
      First(EncodeAll(ns), bad);
      FlatFirst(ns[0], Without(ns[1..], hidden));
    }
  }

  lemma FlatFirst(n: Scalar, ns: seq<Scalar>)
    ensures EncodeAll([n] + ns) == Encode(n) + EncodeAll(ns)
    ensures EncodeAll([] + ns) == [] + EncodeAll(ns)
  {
    assert ([n] + ns)[1..] == ns && [] + ns == ns;
  }

  /** Of a text with any code points exactly the C0 and C1 controls other than tab, line feed and carriage return,
      the zero-width and bidirectional controls, the tag block and the private use areas are dropped. */
  lemma SafeTextByCodePoint(ns: seq<Scalar>, hidden: int -> bool)
    requires forall n :: hidden(n) <==>
      || 0x00 <= n <= 0x08 || n == 0x0B || n == 0x0C || 0x0E <= n <= 0x1F
      || 0x7F <= n <= 0x9F
      || 0x200B <= n <= 0x200F || 0x202A <= n <= 0x202E || 0x2066 <= n <= 0x2069 || n == 0xFEFF
      || 0xE0000 <= n <= 0xE007F
      || 0xE000 <= n <= 0xF8FF || 0xF0000 <= n <= 0xFFFFD || 0x100000 <= n <= 0x10FFFD
    ensures WellFormed(EncodeAll(ns)) && SafeText(EncodeAll(ns)) == EncodeAll(Without(ns, hidden))
  {
    forall n: Scalar ensures DangerousChar(Encode(n)) <==> hidden(n) {
      CodePointOfEncode(n);
    }
    KeepByCodePoint(ns, DangerousChar, hidden);
  }

  // ----- The tool name -----

  /** What is printed for one code point of a tool name. */
  predicate PrintsAs(n: int, b: byte) {
    b as int == if 0x30 <= n <= 0x39 || 0x41 <= n <= 0x5A || 0x61 <= n <= 0x7A || n == 0x2D then n else 0x5F
  }

  lemma PrintedByte(n: Scalar)
    ensures var e := Encode(n);
            PrintsAs(n, if |e| == 1 && NameByte(e[0]) then e[0] else '_' as byte)
  {
  }

  lemma CleanNameCons(c: seq<byte>, cs: seq<seq<byte>>)
    ensures var name := CleanName([c] + cs);
            && |name| > 0 && name[0] == (if |c| == 1 && NameByte(c[0]) then c[0] else '_' as byte)
            && name[1..] == CleanName(cs)
  {
    assert ([c] + cs)[1..] == cs;
  }

  lemma CleanNameFirst(n: Scalar, ns: seq<Scalar>)
    requires WellFormed(EncodeAll(ns))
    ensures WellFormed(EncodeAll([n] + ns))
    ensures var name := CleanName(Chars(EncodeAll([n] + ns)));
            |name| > 0 && PrintsAs(n, name[0]) && name[1..] == CleanName(Chars(EncodeAll(ns)))
  {
    var bad: seq<byte> -> bool := DangerousChar;
    FlatFirst(n, ns);
    EncodeThen(n, EncodeAll(ns));
    First(EncodeAll([n] + ns), bad);
    PrintedByte(n);
    CleanNameCons(Encode(n), Chars(EncodeAll(ns)));
  }

  /** Of a tool name digits, letters, `-` and `_` are printed, every other code point becomes one `_`. */
  lemma {:induction false} ToolNameByCodePoint(ns: seq<Scalar>)
    ensures WellFormed(EncodeAll(ns))
    ensures var name := CleanName(Chars(EncodeAll(ns)));
            |name| == |ns| && forall i | 0 <= i < |ns| :: PrintsAs(ns[i], name[i])
    ensures ns != [] ==> SafeToolName(EncodeAll(ns)) == CleanName(Chars(EncodeAll(ns)))
  {
    EncodedIsWellFormed(ns);
    if ns != [] {
      ToolNameByCodePoint(ns[1..]);
      CleanNameFirst(ns[0], ns[1..]);
      assert [ns[0]] + ns[1..] == ns;
      EncodeThen(ns[0], EncodeAll(ns[1..]));
    }
  }
}
