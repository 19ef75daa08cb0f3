/** The shape of UTF-8 text, as far as cursors on byte positions depend on it. */
module Utf8 {
  import opened Bytes

  predicate IsCont(b: byte) { 0x80 <= b < 0xC0 }

  predicate IsAsciiByte(b: byte) { b < 0x80 }

  /** The length of the character that a lead byte starts. */
  function CharLen(lead: byte): nat {
    if lead < 0x80 then 1 else if lead < 0xE0 then 2 else if lead < 0xF0 then 3 else 4
  }

  /** A non-empty text starts with one whole character. */
  predicate StartsWithChar(s: seq<byte>)
    requires s != []
  {
    !IsCont(s[0]) && CharLen(s[0]) <= |s| && forall i | 0 < i < CharLen(s[0]) :: IsCont(s[i])
  }

  /** The text is a sequence of whole characters; every Rust string is. */
  predicate WellFormed(s: seq<byte>) {
    s == [] || (StartsWithChar(s) && WellFormed(s[CharLen(s[0])..]))
  }

  /** `str::is_char_boundary`. */
  predicate IsBoundary(s: seq<byte>, i: nat) {
    i == 0 || i == |s| || (i < |s| && !IsCont(s[i]))
  }

  /** The number of continuation bytes at the front. */
  function ContRun(s: seq<byte>): (n: nat)
    ensures n <= |s| && (n < |s| ==> !IsCont(s[n])) && forall i | 0 <= i < n :: IsCont(s[i])
  {
    if s == [] || !IsCont(s[0]) then 0 else 1 + ContRun(s[1..])
  }

  /** In a well-formed text the first character ends where its continuation bytes end. */
  lemma CharEnd(s: seq<byte>)
    requires WellFormed(s) && s != []
    ensures 1 + ContRun(s[1..]) == CharLen(s[0])
  {
    var n, t := CharLen(s[0]), s[1..];
    assert forall i | 0 <= i < n - 1 :: t[i] == s[i + 1];
    assert n < |s| ==> StartsWithChar(s[n..]) && s[n..][0] == t[n - 1];
    ContRunIs(t, n - 1);
  }

  lemma ContRunIs(s: seq<byte>, n: nat)
    requires n <= |s| && (n < |s| ==> !IsCont(s[n])) && forall i | 0 <= i < n :: IsCont(s[i])
    ensures ContRun(s) == n
  {
  }

  /** A text can be cut after any ASCII byte. */
  lemma {:induction false} CutAfterAscii(s: seq<byte>, k: nat)
    requires WellFormed(s) && k < |s| && IsAsciiByte(s[k])
    ensures WellFormed(s[k + 1..])
    decreases |s|
  {
    var n := CharLen(s[0]);
    if k >= n {
      assert s[n..][k - n] == s[k];
      CutAfterAscii(s[n..], k - n);
      assert s[n..][k - n + 1..] == s[k + 1..];
    } else {
      assert k == 0;
    }
  }

  /** A text can be cut at any boundary. */
  lemma {:induction false} CutAtBoundary(s: seq<byte>, k: nat)
    requires WellFormed(s) && k <= |s| && IsBoundary(s, k)
    ensures WellFormed(s[..k]) && WellFormed(s[k..])
    decreases |s|
  {
    if k == |s| {
      assert s[..k] == s;
    } else if k > 0 {
      var n := CharLen(s[0]);
      BoundaryInTail(s, k);
      CutAtBoundary(s[n..], k - n);
      Slices(s, n, k);
      CharThenRest(s[..k], n);
    }
  }

  /** Behind the first character the boundaries are those of the rest. */
  lemma BoundaryInTail(s: seq<byte>, k: nat)
    requires s != [] && StartsWithChar(s) && 0 < k <= |s| && IsBoundary(s, k)
    ensures var n := CharLen(s[0]); n <= k && IsBoundary(s[n..], k - n)
  {
  }

  lemma CharThenRest(s: seq<byte>, n: nat)
    requires s != [] && n == CharLen(s[0]) <= |s| && StartsWithChar(s) && WellFormed(s[n..])
    ensures WellFormed(s)
  {
  }

  lemma Slices(s: seq<byte>, n: nat, k: nat)
    requires n <= k <= |s|
    ensures s[..k][n..] == s[n..][..k - n] && s[n..][k - n..] == s[k..]
  {
  }

  lemma {:induction false} Joined(s: seq<byte>, t: seq<byte>)
    requires WellFormed(s) && WellFormed(t)
    ensures WellFormed(s + t)
    decreases |s|
  {
    if s == [] {
      assert s + t == t;
    } else {
      var n := CharLen(s[0]);
      Joined(s[n..], t);
      assert (s + t)[n..] == s[n..] + t;
    }
  }

  lemma {:induction false} AsciiWellFormed(s: seq<byte>)
    requires forall i | 0 <= i < |s| :: IsAsciiByte(s[i])
    ensures WellFormed(s)
  {
    if s != [] {
      AsciiWellFormed(s[1..]);
    }
  }
}

/** Removal of terminal control sequences: a byte cursor against a tokeniser. */
module AnsiStrip {
  import opened Wrappers
  import opened Bytes
  import opened Utf8

  const ESC: byte := 0x1B
  const BEL: byte := 0x07

  /** A character of text, or a control function (section 5.4 of ECMA-48 for `Csi`). */
  datatype Token =
    | Char(bytes: seq<byte>)
    | Csi(bytes: seq<byte>)
    | Osc(bytes: seq<byte>)
    | Charset(bytes: seq<byte>)
    | Lone(bytes: seq<byte>)

  predicate IsFinal(b: byte) { 0x40 <= b <= 0x7E }

  /** The parameter and intermediate bytes of a control sequence and its final byte, if there is one. */
  function CsiLen(s: seq<byte>): (n: nat)
    ensures n <= |s|
    ensures n < |s| || (n > 0 && IsFinal(s[n - 1])) || forall i | 0 <= i < n :: !IsFinal(s[i])
    ensures forall i | 0 <= i < n - 1 :: !IsFinal(s[i])
    ensures n < |s| ==> n > 0 && IsFinal(s[n - 1])
  {
    if s == [] then 0 else if IsFinal(s[0]) then 1 else 1 + CsiLen(s[1..])
  }

  /** The body of an operating system command and its terminator, if there is one. */
  function OscLen(s: seq<byte>): (n: nat)
    ensures n <= |s|
    ensures n < |s| ==> n > 0 && (s[n - 1] == BEL || (n > 1 && s[n - 2] == ESC && s[n - 1] == 0x5C))
  {
    if s == [] then 0
    else if s[0] == BEL then 1
    else if s[0] == ESC && |s| > 1 && s[1] == 0x5C then 2
    else 1 + OscLen(s[1..])
  }

  function FirstToken(s: seq<byte>): (t: Token)
    requires s != []
    ensures 0 < |t.bytes| <= |s| && t.bytes == s[..|t.bytes|]
    ensures t.Char? <==> s[0] != ESC
  {
    if s[0] != ESC then Char(s[..1 + ContRun(s[1..])])
    else if |s| == 1 then Lone(s)
    else if s[1] == '[' as byte then Csi(s[..2 + CsiLen(s[2..])])
    else if s[1] == ']' as byte then Osc(s[..2 + OscLen(s[2..])])
    else if s[1] == '(' as byte || s[1] == ')' as byte || s[1] == '*' as byte || s[1] == '+' as byte then
      Charset(s[..if |s| < 3 then |s| else 3])
    else Lone(s[..2])
  }

  /** A command ends at the first BEL or `ESC \`. */
  ghost predicate EndsAt(s: seq<byte>, i: nat) {
    && i < |s|
    && (s[i] == 0x07 || (s[i] == 0x1B && i + 1 < |s| && s[i + 1] == 0x5C))
  }

  lemma {:induction false} OscEnds(s: seq<byte>, i: nat)
    requires i < OscLen(s) && EndsAt(s, i)
    ensures OscLen(s) == i + if s[i] == 0x07 then 1 else 2
  {
    if i > 0 && !EndsAt(s, 0) {
      assert s[1..][i - 1] == s[i] && (i + 1 < |s| ==> s[1..][i] == s[i + 1]);
      OscEnds(s[1..], i - 1);
    }
  }

  /** What the bytes of a token are. A character ends where its continuation bytes end. Behind ESC, `[` opens a control
      sequence, which ends with its first byte from 0x40 to 0x7E; `]` opens a command, which ends with its first BEL or
      `ESC \`; `(`, `)`, `*` and `+` take one more byte; any other byte is taken alone. What is not ended takes the
      rest of the text. */
  lemma TokenShape(s: seq<byte>)
    requires s != []
    ensures var t := FirstToken(s);
            var n := |t.bytes|;
            && t.bytes == s[..n]
            && match t
               case Char(_) =>
                 s[0] != 0x1B && (forall i | 0 < i < n :: 0x80 <= s[i] < 0xC0) && (n < |s| ==> !(0x80 <= s[n] < 0xC0))
               case Csi(_) =>
                 && n >= 2 && s[0] == 0x1B && s[1] == 0x5B
                 && (forall i | 2 <= i < n - 1 :: !(0x40 <= s[i] <= 0x7E))
                 && (n == |s| || (n > 2 && 0x40 <= s[n - 1] <= 0x7E))
               case Osc(_) =>
                 && n >= 2 && s[0] == 0x1B && s[1] == 0x5D
                 && (forall i: nat | i < n - 2 && EndsAt(s[2..], i) :: n == i + if s[i + 2] == 0x07 then 3 else 4)
                 && (n == |s| || (n > 2 && s[n - 1] == 0x07) || (n > 3 && s[n - 2] == 0x1B && s[n - 1] == 0x5C))
               case Charset(_) =>
                 |s| >= 2 && s[0] == 0x1B && 0x28 <= s[1] <= 0x2B && n == (if |s| < 3 then |s| else 3)
               case Lone(_) =>
                 s[0] == 0x1B
                 && if |s| == 1 then n == 1 else n == 2 && s[1] != 0x5B && s[1] != 0x5D && !(0x28 <= s[1] <= 0x2B)
  {
    var t := FirstToken(s);
    var n := |t.bytes|;
    if t.Char? {
      assert forall i | 0 < i < n :: s[i] == s[1..][i - 1];
    } else if t.Csi? {
      assert forall i | 2 <= i < n :: s[i] == s[2..][i - 2];
    } else if t.Osc? {
      assert forall i | 2 <= i < n :: s[i] == s[2..][i - 2];
      forall i: nat | i < n - 2 && EndsAt(s[2..], i) ensures n == i + if s[i + 2] == 0x07 then 3 else 4 {
        OscEnds(s[2..], i);
      }
    }
  }

  function Tokens(s: seq<byte>): seq<Token>
    decreases |s|
  {
    if s == [] then [] else [FirstToken(s)] + Tokens(s[|FirstToken(s).bytes|..])
  }

  /** The characters of text among the tokens. */
  function Visible(ts: seq<Token>): seq<byte> {
    if ts == [] then []
    else (if ts[0].Char? then ts[0].bytes else []) + Visible(ts[1..])
  }

  function AllBytes(ts: seq<Token>): seq<byte> {
    if ts == [] then [] else ts[0].bytes + AllBytes(ts[1..])
  }

  lemma FirstOfTokens(s: seq<byte>)
    requires s != []
    ensures var t := FirstToken(s);
            && Tokens(s)[0] == t && Tokens(s)[1..] == Tokens(s[|t.bytes|..]) && |Tokens(s)| > 0
            && AllBytes(Tokens(s)) == s[..|t.bytes|] + AllBytes(Tokens(s[|t.bytes|..]))
  {
  }

  /** The tokens cover the text without gaps, and none is empty. */
  lemma {:induction false} TokensCover(s: seq<byte>)
    ensures AllBytes(Tokens(s)) == s && forall i | 0 <= i < |Tokens(s)| :: Tokens(s)[i].bytes != []
    decreases |s|
  {
    if s != [] {
      var n := |FirstToken(s).bytes|;
      TokensCover(s[n..]);
      FirstOfTokens(s);
      Rejoined(s, n);
    }
  }

  /** What the cursor computes; `None` when it slices the string inside a character. */
  function Strip(s: seq<byte>): Option<seq<byte>>
    decreases |s|
  {
    if s == [] then Some([])
    else
      var t := FirstToken(s);
      if t.Char? && IsCont(s[0]) then None
      else
        match Strip(s[|t.bytes|..])
        case None => None
        case Some(rest) => Some((if t.Char? then t.bytes else []) + rest)
  }

  function Prepend(u: seq<byte>, r: Option<seq<byte>>): Option<seq<byte>> {
    match r
    case None => None
    case Some(v) => Some(u + v)
  }

  lemma PrependTwice(u: seq<byte>, v: seq<byte>, r: Option<seq<byte>>)
    ensures Prepend(u, Prepend(v, r)) == Prepend(u + v, r)
  {
    if r.Some? {
      assert u + (v + r.value) == u + v + r.value;
    }
  }

  lemma StripHead(s: seq<byte>)
    requires s != []
    ensures var t := FirstToken(s);
            Strip(s) == if t.Char? && IsCont(s[0]) then None
                        else Prepend(if t.Char? then t.bytes else [], Strip(s[|t.bytes|..]))
  {
  }

  lemma TokenAt(s: seq<byte>, i: nat, j: nat)
    requires i < |s| && j == i + |FirstToken(s[i..]).bytes|
    ensures i < j <= |s| && FirstToken(s[i..]).bytes == s[i..j] && s[i..][j - i..] == s[j..]
    ensures FirstToken(s[i..]).Char? <==> s[i] != ESC
  {
  }

  lemma StripStep(out: seq<byte>, s: seq<byte>, i: nat, j: nat)
    requires i < |s| && j == i + |FirstToken(s[i..]).bytes|
    ensures i < j <= |s|
    ensures Prepend(out, Strip(s[i..])) ==
            if s[i] == ESC then Prepend(out, Strip(s[j..]))
            else if IsCont(s[i]) then None else Prepend(out + s[i..j], Strip(s[j..]))
  {
    StripHead(s[i..]);
    TokenAt(s, i, j);
    PrependTwice(out, if s[i] == ESC then [] else s[i..j], Strip(s[j..]));
    assert out + [] == out;
  }

  method NextCharBoundary(s: seq<byte>, i: nat) returns (j: nat)
    requires i < |s|
    ensures j == i + 1 + ContRun(s[i + 1..])
  {
    j := i + 1;
    while j < |s| && !IsBoundary(s, j)
      invariant i < j <= |s| && j + ContRun(s[j..]) == i + 1 + ContRun(s[i + 1..])
    {
      assert s[j..][1..] == s[j + 1..];
      j := j + 1;
    }
  }

  /** Moves the cursor over the control function that starts at `i`. */
  method SkipControl(s: seq<byte>, i: nat) returns (j: nat)
    requires i < |s| && s[i] == ESC
    ensures j == i + |FirstToken(s[i..]).bytes|
  {
    ghost var rest := s[i..];
    if i + 1 >= |s| {
      return i + 1;
    }
    assert rest[2..] == s[i + 2..] && rest[1] == s[i + 1];
    if s[i + 1] == '[' as byte {
      j := SkipCsi(s, i + 2);
    } else if s[i + 1] == ']' as byte {
      j := SkipOsc(s, i + 2);
    } else if s[i + 1] == '(' as byte || s[i + 1] == ')' as byte || s[i + 1] == '*' as byte || s[i + 1] == '+' as byte {
      j := i + if |s| - i < 3 then |s| - i else 3;
    } else {
      j := i + 2;
    }
  }

  /** The end of the character at `i`, and whether `i` is where a character starts. */
  method EndOfChar(s: seq<byte>, i: nat) returns (end: nat, ok: bool)
    requires WellFormed(s) && i < |s| && s[i] != ESC
    ensures end == i + |FirstToken(s[i..]).bytes| && (ok <==> !IsCont(s[i]))
  {
    end := NextCharBoundary(s, i);
    assert s[i..][1..] == s[i + 1..];
    ok := IsBoundary(s, i);
  }

  /** The cursor loop over the bytes of a string; `None` when the string is sliced inside a character. */
  method StripAnsi(s: seq<byte>) returns (r: Option<seq<byte>>)
    requires WellFormed(s)
    ensures r == Strip(s)
  {
    var out: seq<byte> := [];
    var i := 0;
    assert s[0..] == s;
    assert Strip(s).Some? ==> [] + Strip(s).value == Strip(s).value;
    while i < |s|
      invariant i <= |s| && Strip(s) == Prepend(out, Strip(s[i..]))
    {
      if s[i] == ESC {
        var end := SkipControl(s, i);
        StripStep(out, s, i, end);
        i := end;
      } else {
        var end, ok := EndOfChar(s, i);
        StripStep(out, s, i, end);
        if !ok {
          return None;
        }
        out := out + s[i..end];
        i := end;
      }
    }
    assert s[i..] == [] && out + [] == out;
    r := Some(out);
  }

  method SkipCsi(s: seq<byte>, start: nat) returns (i: nat)
    requires start <= |s|
    ensures i == start + CsiLen(s[start..])
  {
    i := start;
    while i < |s| && !IsFinal(s[i])
      invariant start <= i <= |s| && i + CsiLen(s[i..]) == start + CsiLen(s[start..])
    {
      assert s[i..][1..] == s[i + 1..];
      i := i + 1;
    }
    if i < |s| {
      i := i + 1;
    }
  }

  method SkipOsc(s: seq<byte>, start: nat) returns (i: nat)
    requires start <= |s|
    ensures i == start + OscLen(s[start..])
  {
    i := start;
    while i < |s|
      invariant start <= i <= |s| && i + OscLen(s[i..]) == start + OscLen(s[start..])
    {
      assert s[i..][1..] == s[i + 1..];
      if s[i] == BEL {
        i := i + 1;
        return;
      }
      if s[i] == ESC && i + 1 < |s| && s[i + 1] == 0x5C {
        i := i + 2;
        return;
      }
      i := i + 1;
    }
  }

  // ----- What stripping guarantees -----

  /** A control token that swallows a fixed number of bytes swallows only ASCII. */
  predicate SwallowsAscii(t: Token)
    requires t.bytes != []
  {
    t.Charset? || t.Lone? ==> IsAsciiByte(t.bytes[|t.bytes| - 1])
  }

  ghost predicate CutsNoCharacter(s: seq<byte>) {
    forall t | t in Tokens(s) :: t.bytes != [] && SwallowsAscii(t)
  }

  /** After a whole character or a control token that swallows only ASCII, whole characters follow. */
  lemma RestWellFormed(s: seq<byte>)
    requires WellFormed(s) && s != [] && SwallowsAscii(FirstToken(s))
    ensures WellFormed(s[|FirstToken(s).bytes|..])
  {
    var t := FirstToken(s);
    var n := |t.bytes|;
    if t.Char? {
      CharEnd(s);
    } else if n < |s| {
      if t.Csi? {
        assert IsFinal(s[2..][n - 3]) && s[2..][n - 3] == s[n - 1];
      } else if t.Osc? {
        assert s[2..][n - 3] == s[n - 1];
      }
      CutAfterAscii(s, n - 1);
    }
  }

  /** Otherwise the next byte continues a character. */
  lemma RestBroken(s: seq<byte>)
    requires WellFormed(s) && s != [] && !SwallowsAscii(FirstToken(s))
    ensures |FirstToken(s).bytes| < |s| && IsCont(s[|FirstToken(s).bytes|])
  {
    var t := FirstToken(s);
    assert WellFormed(s[1..]);
    if t.Charset? {
      CutAfterAscii(s, 1);
      assert StartsWithChar(s[2..]);
      assert IsCont(s[2..][1]);
    } else {
      assert StartsWithChar(s[1..]);
      assert IsCont(s[1..][1]);
    }
  }

  /** The loop finishes without slicing inside a character exactly when no two- or three-byte skip
      swallows the first byte of a longer character; then it has kept exactly the text tokens,
      and what it kept is well formed. */
  lemma {:induction false} StripExact(s: seq<byte>)
    requires WellFormed(s)
    ensures Strip(s).Some? <==> CutsNoCharacter(s)
    ensures Strip(s).Some? ==> Strip(s).value == Visible(Tokens(s)) && WellFormed(Strip(s).value)
    decreases |s|
  {
    if s != [] {
      var t := FirstToken(s);
      var rest := s[|t.bytes|..];
      assert Tokens(s) == [t] + Tokens(rest);
      assert t in Tokens(s);
      if SwallowsAscii(t) {
        RestWellFormed(s);
        StripExact(rest);
        assert CutsNoCharacter(s) <==> CutsNoCharacter(rest);
        StripFirst(s);
      } else {
        RestBroken(s);
        assert FirstToken(rest).Char? && IsCont(rest[0]);
      }
    }
  }

  /** A witness: an escape byte before a letter with an accent, in two bytes. */
  lemma EscapeBeforeAccent()
    ensures WellFormed([0x1B, 0xC3, 0xA9]) && Strip([0x1B, 0xC3, 0xA9]) == None
  {
    var s: seq<byte> := [0x1B, 0xC3, 0xA9];
    assert s[1..] == [0xC3, 0xA9] && s[2..] == [0xA9];
    assert FirstToken(s) == Lone(s[..2]);
  }

  lemma StripFirst(s: seq<byte>)
    requires WellFormed(s) && s != []
    ensures var t := FirstToken(s);
            var rest := Strip(s[|t.bytes|..]);
            && (Strip(s).Some? <==> rest.Some?)
            && (rest.Some? ==> Strip(s).value == (if t.Char? then t.bytes else []) + rest.value)
            && (rest.Some? && WellFormed(rest.value) ==> WellFormed(Strip(s).value))
  {
    var t := FirstToken(s);
    var rest := Strip(s[|t.bytes|..]);
    if rest.Some? && WellFormed(rest.value) {
      if t.Char? {
        CharEnd(s);
        CutAtBoundary(s, |t.bytes|);
        Joined(t.bytes, rest.value);
      } else {
        assert [] + rest.value == rest.value;
      }
    }
  }

  predicate EscFree(s: seq<byte>) { forall i | 0 <= i < |s| :: s[i] != ESC }

  /** `t` is `s` with some elements left out. */
  predicate Subsequence(t: seq<byte>, s: seq<byte>)
    decreases |s|
  {
    t == [] || (s != [] && (if t[0] == s[0] then Subsequence(t[1..], s[1..]) else Subsequence(t, s[1..])))
  }

  lemma {:induction false} SubsequenceDrop(t: seq<byte>, s: seq<byte>)
    requires t != [] && Subsequence(t, s)
    ensures Subsequence(t[1..], s)
    decreases |s|
  {
    if t[0] == s[0] {
      SubsequenceSkip(t[1..], s);
    } else {
      SubsequenceDrop(t, s[1..]);
      SubsequenceSkip(t[1..], s);
    }
  }

  lemma {:induction false} SubsequenceSkip(t: seq<byte>, s: seq<byte>)
    requires s != [] && Subsequence(t, s[1..])
    ensures Subsequence(t, s)
    decreases |s|, 0
  {
    if t != [] && t[0] == s[0] {
      SubsequenceDrop(t, s[1..]);
    }
  }

  lemma {:induction false} SubsequenceAfter(t: seq<byte>, u: seq<byte>, s: seq<byte>)
    requires Subsequence(t, s)
    ensures Subsequence(t, u + s) && Subsequence(u + t, u + s)
    decreases |u|
  {
    if u == [] {
      assert u + s == s && u + t == t;
    } else {
      SubsequenceAfter(t, u[1..], s);
      assert (u + s)[1..] == u[1..] + s && (u + t)[1..] == u[1..] + t;
      SubsequenceSkip(t, u + s);
    }
  }

  /** The result holds no escape character and only bytes of the input, in order. */
  lemma {:induction false} StripKeepsText(s: seq<byte>)
    requires Strip(s).Some?
    ensures EscFree(Strip(s).value) && Subsequence(Strip(s).value, s)
    decreases |s|
  {
    if s != [] {
      var t := FirstToken(s);
      var rest := s[|t.bytes|..];
      StripKeepsText(rest);
      assert s == t.bytes + rest;
      SubsequenceAfter(Strip(rest).value, t.bytes, rest);
      if t.Char? {
        CharHasNoEsc(s);
      } else {
        assert [] + Strip(rest).value == Strip(rest).value;
      }
    }
  }

  lemma CharHasNoEsc(s: seq<byte>)
    requires s != [] && FirstToken(s).Char?
    ensures EscFree(FirstToken(s).bytes)
  {
    var b := FirstToken(s).bytes;
    forall i | 0 < i < |b| ensures b[i] != ESC {
      assert b[i] == s[1..][i - 1] && IsCont(s[1..][i - 1]);
    }
  }

  /** Text without escape characters passes unchanged. */
  lemma {:induction false} StripIdentity(s: seq<byte>)
    requires WellFormed(s) && EscFree(s)
    ensures Strip(s) == Some(s)
    decreases |s|
  {
    if s != [] {
      var n := |FirstToken(s).bytes|;
      RestWellFormed(s);
      StripIdentity(s[n..]);
      StripHead(s);
      Rejoined(s, n);
    }
  }

  lemma Rejoined(s: seq<byte>, n: nat)
    requires n <= |s|
    ensures s == s[..n] + s[n..]
  {
  }
}
