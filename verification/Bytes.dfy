/** Bytes, ASCII text as bytes, and growable byte buffers (`Vec<u8>`). */
module Bytes {

  newtype byte = x: int | 0 <= x < 256

  predicate IsAscii(s: string) {
    forall i | 0 <= i < |s| :: s[i] < 128 as char
  }

  /** The bytes of a Rust string that holds only ASCII characters. */
  function Ascii(s: string): (b: seq<byte>)
    requires IsAscii(s)
    ensures |b| == |s|
    ensures forall i | 0 <= i < |s| :: b[i] as int == s[i] as int
  {
    seq(|s|, i requires 0 <= i < |s| => s[i] as int as byte)
  }

  lemma AsciiInjective(s: string, t: string)
    requires IsAscii(s) && IsAscii(t) && Ascii(s) == Ascii(t)
    ensures s == t
  {
    forall i | 0 <= i < |s| ensures s[i] == t[i] {
      assert Ascii(s)[i] == Ascii(t)[i];
    }
  }

  /** A growable buffer that callers fill in place. */
  class ByteBuffer {
    var data: seq<byte>

    constructor ()
      ensures data == []
    {
      data := [];
    }

    method Push(b: byte)
      modifies this
      ensures data == old(data) + [b]
    {
      data := data + [b];
    }

    method Extend(bs: seq<byte>)
      modifies this
      ensures data == old(data) + bs
    {
      data := data + bs;
    }
  }
}

/** Codes that write a text element by element, and when such a text can be read back. */
module Codes {

  /** Writes every element of `s` with `code`. */
  function Flat<T, U>(code: T -> seq<U>, s: seq<T>): seq<U> {
    if s == [] then [] else code(s[0]) + Flat(code, s[1..])
  }

  /** No code word is a prefix of another one. */
  ghost predicate PrefixFree<T(!new), U(!new)>(code: T -> seq<U>) {
    forall x, y :: code(x) <= code(y) ==> x == y
  }

  /** Every code word is non-empty and cannot start with the terminator. */
  ghost predicate Avoids<T(!new), U(!new)>(code: T -> seq<U>, end: U) {
    forall x :: |code(x)| > 0 && code(x)[0] != end
  }

  lemma {:induction false} FlatAppend<T, U>(code: T -> seq<U>, s: seq<T>, t: seq<T>)
    ensures Flat(code, s + t) == Flat(code, s) + Flat(code, t)
  {
    if s == [] {
      assert s + t == t;
    } else {
      assert (s + t)[0] == s[0] && (s + t)[1..] == s[1..] + t;
      FlatAppend(code, s[1..], t);
    }
  }

  lemma FlatSnoc<T, U>(code: T -> seq<U>, s: seq<T>, x: T)
    ensures Flat(code, s + [x]) == Flat(code, s) + code(x)
  {
    FlatAppend(code, s, [x]);
  }

  /** Two words that both start the same text are prefixes of one another. */
  lemma CommonPrefix<U>(u: seq<U>, v: seq<U>, p: seq<U>, q: seq<U>)
    requires u + p == v + q
    ensures u <= v || v <= u
  {
    if |u| <= |v| {
      assert u == (u + p)[..|u|] == v[..|u|];
    } else {
      assert v == (v + q)[..|v|] == u[..|v|];
    }
  }

  /** A text written in a prefix-free code and closed by a terminator is self-delimiting:
      whatever follows it, text and remainder can be read back uniquely. */
  lemma {:induction false} SelfDelimiting<T(!new), U(!new)>(
      code: T -> seq<U>, end: U, s: seq<T>, t: seq<T>, p: seq<U>, q: seq<U>)
    requires PrefixFree(code) && Avoids(code, end)
    requires Flat(code, s) + [end] + p == Flat(code, t) + [end] + q
    ensures s == t && p == q
  {
    var l, r := Flat(code, s) + [end] + p, Flat(code, t) + [end] + q;
    assert s == [] <==> l[0] == end;
    assert t == [] <==> r[0] == end;
    if s == [] {
      assert p == l[1..] == r[1..] == q;
    } else {
      var u, v := code(s[0]), code(t[0]);
      var u', v' := Flat(code, s[1..]) + [end] + p, Flat(code, t[1..]) + [end] + q;
      assert l == u + u' && r == v + v';
      CommonPrefix(u, v, u', v');
      assert s[0] == t[0];
      assert u' == l[|u|..] == r[|u|..] == v';
      SelfDelimiting(code, end, s[1..], t[1..], p, q);
    }
  }
}

/** Decimal numbers as `u64::to_string` prints and `str::parse` reads them. */
module Decimal {
  import opened Wrappers
  import opened Bytes

  predicate IsDigit(c: char) { '0' <= c <= '9' }

  function Digit(d: nat): char
    requires d < 10
  {
    ('0' as int + d) as char
  }

  predicate AllDigits(s: string) {
    forall i | 0 <= i < |s| :: IsDigit(s[i])
  }

  function Print(n: nat): (s: string)
    ensures |s| > 0 && AllDigits(s)
    ensures n > 0 ==> s[0] != '0'
  {
    if n < 10 then [Digit(n)] else Print(n / 10) + [Digit(n % 10)]
  }

  function Value(s: string): nat
    requires AllDigits(s)
  {
    if s == [] then 0 else 10 * Value(s[..|s| - 1]) + (s[|s| - 1] as int - '0' as int)
  }

  lemma {:induction false} ValueOfPrint(n: nat)
    ensures Value(Print(n)) == n
  {
    var s := Print(n);
    if n >= 10 {
      assert s[..|s| - 1] == Print(n / 10);
      ValueOfPrint(n / 10);
    } else {
      assert s[..|s| - 1] == [];
    }
  }

  lemma PrintInjective(m: nat, n: nat)
    requires Print(m) == Print(n)
    ensures m == n
  {
    ValueOfPrint(m);
    ValueOfPrint(n);
  }

  /** The number that a non-empty text of the bytes 0x30 to 0x39 denotes. */
  function Read(s: seq<byte>): Option<nat> {
    if s == [] then None
    else
      var last := s[|s| - 1] as int;
      if !(0x30 <= last <= 0x39) then None
      else if |s| == 1 then Some(last - 0x30)
      else
        match Read(s[..|s| - 1])
        case None => None
        case Some(n) => Some(10 * n + (last - 0x30))
  }

  /** A printed number is read back, and it is printed without leading zeros. */
  lemma {:induction false} ReadOfPrint(n: nat)
    ensures Read(Ascii(Print(n))) == Some(n)
    ensures Ascii(Print(n))[0] == 0x30 ==> n == 0 && |Print(n)| == 1
  {
    var s := Ascii(Print(n));
    if n >= 10 {
      ReadOfPrint(n / 10);
      assert s[..|s| - 1] == Ascii(Print(n / 10));
    }
  }
}
