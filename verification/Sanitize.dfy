/** Where a pattern occurs in a text, and leftmost non-overlapping replacement (`str::replace`). */
module Replacing {
  import opened Bytes

  const LT: byte := 0x3C
  const NL: byte := 0x0A

  predicate OccursAt(s: seq<byte>, pat: seq<byte>, i: nat) {
    i + |pat| <= |s| && s[i..i + |pat|] == pat
  }

  ghost predicate Occurs(s: seq<byte>, pat: seq<byte>) {
    exists i: nat :: OccursAt(s, pat, i)
  }

  function Replace(s: seq<byte>, pat: seq<byte>, rep: seq<byte>): seq<byte>
    requires pat != []
    decreases |s|
  {
    if |s| < |pat| then s
    else if pat <= s then rep + Replace(s[|pat|..], pat, rep)
    else [s[0]] + Replace(s[1..], pat, rep)
  }

  /** The shape of the envelope tags: one `<`, at the front, and no newline. */
  predicate TagShaped(t: seq<byte>) {
    t != [] && t[0] == LT && LT !in t[1..] && NL !in t
  }

  /** The two texts differ at a position that both have. */
  ghost predicate Differ(a: seq<byte>, b: seq<byte>) {
    exists k :: 0 <= k < |a| && k < |b| && a[k] != b[k]
  }

  lemma Shift(s: seq<byte>, pat: seq<byte>, i: nat, n: nat)
    requires n <= i && OccursAt(s, pat, i)
    ensures OccursAt(s[n..], pat, i - n)
  {
    assert s[n..][i - n..i - n + |pat|] == s[i..i + |pat|];
  }

  lemma Unshift(s: seq<byte>, pat: seq<byte>, n: nat)
    requires n <= |s| && Occurs(s[n..], pat)
    ensures Occurs(s, pat)
  {
    var i: nat :| OccursAt(s[n..], pat, i);
    assert s[n + i..n + i + |pat|] == s[n..][i..i + |pat|];
    assert OccursAt(s, pat, n + i);
  }

  lemma Mismatch(s: seq<byte>, pat: seq<byte>, i: nat, k: nat)
    requires k < |pat| && (i + k >= |s| || s[i + k] != pat[k])
    ensures !OccursAt(s, pat, i)
  {
    assert i + |pat| <= |s| ==> s[i..i + |pat|][k] == s[i + k];
  }

  lemma PrefixOfPrefix(a: seq<byte>, b: seq<byte>, c: seq<byte>)
    requires a <= b && b <= c
    ensures a <= c
  {
  }

  lemma PrefixOccurs(s: seq<byte>, pat: seq<byte>)
    requires pat <= s
    ensures Occurs(s, pat)
  {
    assert OccursAt(s, pat, 0);
  }

  /** A stretch without `<` at the front of the replaced text was there before. */
  lemma {:induction false} PlainFrontKept(s: seq<byte>, pat: seq<byte>, rep: seq<byte>, front: seq<byte>)
    requires pat != [] && rep != [] && rep[0] == LT
    requires front <= Replace(s, pat, rep) && LT !in front
    ensures front <= s
    decreases |s|
  {
    if front != [] && |s| >= |pat| {
      var r := Replace(s, pat, rep);
      assert front[0] == r[0];
      assert !(pat <= s);
      var r' := Replace(s[1..], pat, rep);
      assert front[1..] <= r' by {
        assert r[1..] == r';
      }
      PlainFrontKept(s[1..], pat, rep, front[1..]);
      assert front == [s[0]] + front[1..];
    }
  }

  /** A tag that clashes with the replacement text can occur in the replaced text only where it
      occurred before, and not at all when it starts with the replaced pattern. */
  lemma {:induction false} OccurrenceHasSource(s: seq<byte>, pat: seq<byte>, rep: seq<byte>, tag: seq<byte>)
    requires pat != [] && TagShaped(rep) && TagShaped(tag) && Differ(tag, rep)
    requires Occurs(Replace(s, pat, rep), tag)
    ensures Occurs(s, tag) && !(pat <= tag)
    decreases |s|
  {
    var r := Replace(s, pat, rep);
    var i: nat :| OccursAt(r, tag, i);
    if |s| < |pat| {
      assert pat <= tag ==> |tag| <= |s|;
    } else if pat <= s {
      var r' := Replace(s[|pat|..], pat, rep);
      OutsideReplacement(rep, r', tag, i);
      Shift(r, tag, i, |rep|);
      assert r[|rep|..] == r';
      OccurrenceHasSource(s[|pat|..], pat, rep, tag);
      Unshift(s, tag, |pat|);
    } else {
      var r' := Replace(s[1..], pat, rep);
      assert r[1..] == r';
      if i > 0 {
        Shift(r, tag, i, 1);
        OccurrenceHasSource(s[1..], pat, rep, tag);
        Unshift(s, tag, 1);
      } else {
        assert tag == r[..|tag|] && tag[1..] == r'[..|tag| - 1];
        PlainFrontKept(s[1..], pat, rep, tag[1..]);
        assert tag[0] == s[0] && tag == [tag[0]] + tag[1..];
        assert tag <= s;
        PrefixOccurs(s, tag);
        if pat <= tag {
          PrefixOfPrefix(pat, tag, s);
        }
      }
    }
  }

  /** Only the occurrence that comes first is replaced where two overlap, and replacing goes on behind it. */
  lemma {:induction false} ReplaceAtFirst(a: seq<byte>, b: seq<byte>, pat: seq<byte>, rep: seq<byte>)
    requires pat != [] && forall i: nat | i < |a| :: !OccursAt(a + pat + b, pat, i)
    ensures Replace(a + pat + b, pat, rep) == a + rep + Replace(b, pat, rep)
    decreases |a|
  {
    var s := a + pat + b;
    if a == [] {
      assert s == pat + b && s[..|pat|] == pat && s[|pat|..] == b;
    } else {
      assert s[1..] == a[1..] + pat + b && s[0] == a[0];
      assert !OccursAt(s, pat, 0) && s[0..0 + |pat|] == s[..|pat|];
      forall i: nat | i < |a| - 1 ensures !OccursAt(s[1..], pat, i) {
        TailOccurs(s, pat, i + 1);
      }
      ReplaceAtFirst(a[1..], b, pat, rep);
      assert [a[0]] + (a[1..] + rep + Replace(b, pat, rep)) == a + rep + Replace(b, pat, rep);
    }
  }

  /** Replacing by something longer leaves a text alone exactly when the pattern does not occur. */
  lemma {:induction false} ReplaceGrows(s: seq<byte>, pat: seq<byte>, rep: seq<byte>)
    requires 0 < |pat| < |rep|
    ensures if Occurs(s, pat) then |Replace(s, pat, rep)| > |s| else Replace(s, pat, rep) == s
    decreases |s|
  {
    if |s| < |pat| {
      assert !Occurs(s, pat);
    } else if pat <= s {
      PrefixOccurs(s, pat);
      ReplaceGrows(s[|pat|..], pat, rep);
    } else {
      ReplaceGrows(s[1..], pat, rep);
      if Occurs(s[1..], pat) {
        Unshift(s, pat, 1);
      } else {
        NotInTail(s, pat);
      }
    }
  }

  lemma NotInTail(s: seq<byte>, pat: seq<byte>)
    requires s != [] && !(pat <= s) && !Occurs(s[1..], pat)
    ensures !Occurs(s, pat)
  {
    forall i: nat ensures !OccursAt(s, pat, i) {
      if i == 0 { NotAtFront(s, pat); } else { TailOccurs(s, pat, i); }
    }
  }

  lemma NotAtFront(s: seq<byte>, pat: seq<byte>)
    requires !(pat <= s)
    ensures !OccursAt(s, pat, 0)
  {
    assert |pat| <= |s| ==> s[0..0 + |pat|] == s[..|pat|];
  }

  lemma TailOccurs(s: seq<byte>, pat: seq<byte>, i: nat)
    requires s != [] && i > 0
    ensures OccursAt(s, pat, i) <==> OccursAt(s[1..], pat, i - 1)
  {
    assert i + |pat| <= |s| ==> s[1..][i - 1..i - 1 + |pat|] == s[i..i + |pat|];
  }

  /** A clashing tag cannot start inside a copy of the replacement. */
  lemma OutsideReplacement(rep: seq<byte>, rest: seq<byte>, tag: seq<byte>, i: nat)
    requires TagShaped(rep) && TagShaped(tag) && Differ(tag, rep) && OccursAt(rep + rest, tag, i)
    ensures i >= |rep|
  {
    var s := rep + rest;
    var k :| 0 <= k < |tag| && k < |rep| && tag[k] != rep[k];
    Mismatch(s, tag, 0, k);
    forall m: nat | 0 < m < |rep| ensures !OccursAt(s, tag, m) {
      assert s[m] == rep[m] == rep[1..][m - 1];
      Mismatch(s, tag, m, 0);
    }
  }
}

/** Dropping characters of a text, whichever they are. */
module CharFilter {
  import opened Bytes
  import opened Utf8

  /** The characters of a text. */
  function Chars(s: seq<byte>): seq<seq<byte>>
    requires WellFormed(s)
    decreases |s|
  {
    if s == [] then [] else [s[..CharLen(s[0])]] + Chars(s[CharLen(s[0])..])
  }

  /** The text without its bad characters. */
  function Keep(s: seq<byte>, bad: seq<byte> -> bool): seq<byte>
    requires WellFormed(s)
    decreases |s|
  {
    if s == [] then []
    else
      var c := s[..CharLen(s[0])];
      (if bad(c) then [] else c) + Keep(s[|c|..], bad)
  }

  lemma First(s: seq<byte>, bad: seq<byte> -> bool)
    requires s != [] && WellFormed(s)
    ensures var n := CharLen(s[0]);
            && n <= |s| && WellFormed(s[n..]) && Chars(s) == [s[..n]] + Chars(s[n..])
            && Keep(s, bad) == (if bad(s[..n]) then [] else s[..n]) + Keep(s[n..], bad)
  {
  }

  /** The text from `i` on is still to be filtered behind `out`. */
  ghost predicate Pending(s: seq<byte>, bad: seq<byte> -> bool, out: seq<byte>, i: nat)
    requires WellFormed(s)
  {
    i <= |s| && WellFormed(s[i..]) && out + Keep(s[i..], bad) == Keep(s, bad)
  }

  lemma Regrouped(out: seq<byte>, c: seq<byte>, rest: seq<byte>)
    ensures out + (c + rest) == out + c + rest && out + [] == out && [] + rest == rest
  {
  }

  lemma SliceOfRest(s: seq<byte>, i: nat, n: nat)
    requires i + n <= |s|
    ensures s[i..][..n] == s[i..i + n] && s[i..][n..] == s[i + n..]
  {
  }

  lemma FirstAt(s: seq<byte>, bad: seq<byte> -> bool, i: nat, next: nat)
    requires i < |s| && WellFormed(s[i..]) && next == i + CharLen(s[i])
    ensures next <= |s| && WellFormed(s[next..])
    ensures Keep(s[i..], bad) == (if bad(s[i..next]) then [] else s[i..next]) + Keep(s[next..], bad)
  {
    First(s[i..], bad);
    SliceOfRest(s, i, next - i);
  }

  lemma PendingStep(s: seq<byte>, bad: seq<byte> -> bool, out: seq<byte>, i: nat, next: nat)
    requires WellFormed(s) && Pending(s, bad, out, i) && i < |s| && next == i + CharLen(s[i])
    ensures next <= |s| && Pending(s, bad, if bad(s[i..next]) then out else out + s[i..next], next)
  {
    FirstAt(s, bad, i, next);
    Pushed(out, if bad(s[i..next]) then [] else s[i..next], Keep(s[next..], bad), Keep(s, bad));
    Regrouped(out, [], []);
  }

  lemma Pushed(out: seq<byte>, piece: seq<byte>, rest: seq<byte>, all: seq<byte>)
    requires out + (piece + rest) == all
    ensures out + piece + rest == all
  {
  }

  lemma PendingEnds(s: seq<byte>, bad: seq<byte> -> bool, out: seq<byte>)
    requires WellFormed(s)
    ensures Pending(s, bad, [], 0) && (Pending(s, bad, out, |s|) ==> out == Keep(s, bad))
  {
    assert s[0..] == s && s[|s|..] == [];
    Regrouped(out, [], Keep(s, bad));
  }

  /** What is kept is well formed and holds no bad character. */
  lemma {:induction false} KeptIsGood(s: seq<byte>, bad: seq<byte> -> bool)
    requires WellFormed(s)
    ensures WellFormed(Keep(s, bad)) && forall c | c in Chars(Keep(s, bad)) :: !bad(c)
    decreases |s|
  {
    if s != [] {
      var n := CharLen(s[0]);
      var c, rest := s[..n], Keep(s[n..], bad);
      First(s, bad);
      KeptIsGood(s[n..], bad);
      Regrouped([], c, rest);
      if !bad(c) {
        assert (c + rest)[..n] == c && (c + rest)[n..] == rest;
      }
    }
  }

  lemma {:induction false} KeepShrinks(s: seq<byte>, bad: seq<byte> -> bool)
    requires WellFormed(s)
    ensures |Keep(s, bad)| <= |s|
    decreases |s|
  {
    if s != [] {
      First(s, bad);
      KeepShrinks(s[CharLen(s[0])..], bad);
    }
  }

  /** A text is kept whole exactly when none of its characters is bad. */
  lemma {:induction false} KeptWhole(s: seq<byte>, bad: seq<byte> -> bool)
    requires WellFormed(s)
    ensures Keep(s, bad) == s <==> forall c | c in Chars(s) :: !bad(c)
    decreases |s|
  {
    if s != [] {
      var n := CharLen(s[0]);
      First(s, bad);
      KeptWhole(s[n..], bad);
      KeepShrinks(s[n..], bad);
      Halves(s, n);
      WholeStep(s, s[..n], s[n..], Keep(s, bad), Keep(s[n..], bad), Chars(s[n..]), bad);
    }
  }

  lemma Halves(s: seq<byte>, n: nat)
    requires n <= |s|
    ensures s == s[..n] + s[n..]
  {
  }

  lemma WholeStep(s: seq<byte>, c: seq<byte>, rest: seq<byte>, kept: seq<byte>, keptRest: seq<byte>,
                  cs: seq<seq<byte>>, bad: seq<byte> -> bool)
    requires s == c + rest && c != [] && |keptRest| <= |rest|
    requires kept == (if bad(c) then [] else c) + keptRest
    requires keptRest == rest <==> forall x | x in cs :: !bad(x)
    ensures kept == s <==> forall x | x in [c] + cs :: !bad(x)
  {
    assert c in [c] + cs && forall x | x in cs :: x in [c] + cs;
    assert !bad(c) ==> kept[|c|..] == keptRest && s[|c|..] == rest;
  }
}

/** The envelope around tool output that is fed back to the model. */
module Sanitize {
  import opened Wrappers
  import opened Bytes
  import opened Utf8
  import opened AnsiStrip
  import opened CharFilter
  import opened Replacing

  const MAX_OUTPUT_BYTES := 8192

  // ----- Dangerous characters -----

  /** The code point of one character. */
  function CodePoint(c: seq<byte>): int {
    if |c| == 1 then c[0] as int
    else if |c| == 2 then (c[0] as int - 0xC0) * 64 + (c[1] as int - 0x80)
    else if |c| == 3 then (c[0] as int - 0xE0) * 4096 + (c[1] as int - 0x80) * 64 + (c[2] as int - 0x80)
    else if |c| == 4 then
      (c[0] as int - 0xF0) * 262144 + (c[1] as int - 0x80) * 4096 + (c[2] as int - 0x80) * 64 + (c[3] as int - 0x80)
    else 0
  }

  predicate Dangerous(code: int) {
    || 0x00 <= code <= 0x08 || code == 0x0B || code == 0x0C || 0x0E <= code <= 0x1F
    || 0x7F <= code <= 0x9F
    || 0x200B <= code <= 0x200F || 0x202A <= code <= 0x202E || 0x2066 <= code <= 0x2069 || code == 0xFEFF
    || 0xE0000 <= code <= 0xE007F
    || 0xE000 <= code <= 0xF8FF || 0xF0000 <= code <= 0xFFFFD || 0x100000 <= code <= 0x10FFFD
  }

  predicate DangerousChar(c: seq<byte>) { Dangerous(CodePoint(c)) }

  /** The text without its dangerous characters. */
  function SafeText(s: seq<byte>): seq<byte>
    requires WellFormed(s)
  {
    Keep(s, DangerousChar)
  }

  method StripDangerousUnicode(s: seq<byte>) returns (out: seq<byte>)
    requires WellFormed(s)
    ensures out == SafeText(s)
  {
    var dangerous: seq<byte> -> bool := DangerousChar;
    out := [];
    var i := 0;
    PendingEnds(s, dangerous, out);
    while i < |s|
      invariant Pending(s, dangerous, out, i)
      decreases |s| - i
    {
      var next := i + CharLen(s[i]);
      PendingStep(s, dangerous, out, i, next);
      var ch := s[i..next];
      if !dangerous(ch) {
        out := out + ch;
      }
      i := next;
    }
    PendingEnds(s, dangerous, out);
  }

  /** What is kept is well formed and holds no dangerous character. */
  lemma SafeTextIsSafe(s: seq<byte>)
    requires WellFormed(s)
    ensures WellFormed(SafeText(s))
    ensures forall c | c in Chars(SafeText(s)) :: !DangerousChar(c)
  {
    KeptIsGood(s, DangerousChar);
  }

  /** A text is kept whole exactly when none of its characters is dangerous. */
  lemma SafeTextUnchanged(s: seq<byte>)
    requires WellFormed(s)
    ensures SafeText(s) == s <==> forall c | c in Chars(s) :: !DangerousChar(c)
  {
    KeptWhole(s, DangerousChar);
  }

  // ----- Envelope tags -----

  function TagName(): seq<byte> { Ascii("untrusted_tool_output") }

  function Tag(before: string, after: string): seq<byte>
    requires IsAscii(before) && IsAscii(after)
  {
    [LT] + Ascii(before) + TagName() + Ascii(after)
  }

  function OpenTag(): seq<byte> { Tag("", "") }
  function OpenBlocked(): seq<byte> { Tag("", "_BLOCKED") }
  function OpenTagSpace(): seq<byte> { Tag("", " ") }
  function CloseTag(): seq<byte> { Tag("/", ">") }
  function CloseBlocked(): seq<byte> { Tag("/", "_BLOCKED>") }

  function Neutralised(s: seq<byte>): seq<byte> {
    Replace(Replace(s, CloseTag(), CloseBlocked()), OpenTag(), OpenBlocked())
  }

  /** Neither `<` nor a newline. */
  ghost predicate Plain(s: seq<byte>) { forall i | 0 <= i < |s| :: s[i] != LT && s[i] != NL }

  lemma TagNameIsPlain()
    ensures Plain(TagName()) && |TagName()| == 21
  {
  }

  lemma TagFromPlain(u: seq<byte>, v: seq<byte>, w: seq<byte>)
    requires Plain(u) && Plain(v) && Plain(w)
    ensures TagShaped([LT] + u + v + w)
  {
    assert ([LT] + u + v + w)[1..] == u + v + w;
  }

  lemma TagShapes()
    ensures TagShaped(OpenTagSpace()) && TagShaped(CloseTag()) && TagShaped(OpenBlocked()) && TagShaped(CloseBlocked())
  {
    TagNameIsPlain();
    TagFromPlain(Ascii(""), TagName(), Ascii(" "));
    TagFromPlain(Ascii(""), TagName(), Ascii("_BLOCKED"));
    TagFromPlain(Ascii("/"), TagName(), Ascii(">"));
    TagFromPlain(Ascii("/"), TagName(), Ascii("_BLOCKED>"));
  }

  lemma TagsDiffer()
    ensures Differ(CloseTag(), CloseBlocked()) && Differ(CloseTag(), OpenBlocked())
    ensures Differ(OpenTagSpace(), OpenBlocked()) && Differ(CloseTag(), OpenTagSpace())
  {
    TagNameIsPlain();
    assert CloseTag()[23] != CloseBlocked()[23];
    assert OpenTagSpace()[22] != OpenBlocked()[22];
    assert TagName()[0] != '/' as byte;
    assert CloseTag()[1] != OpenBlocked()[1];
    assert CloseTag()[1] != OpenTagSpace()[1];
  }

  lemma TagFacts()
    ensures TagShaped(OpenTagSpace()) && TagShaped(CloseTag()) && TagShaped(OpenBlocked()) && TagShaped(CloseBlocked())
    ensures Differ(CloseTag(), CloseBlocked()) && Differ(CloseTag(), OpenBlocked())
    ensures Differ(OpenTagSpace(), OpenBlocked())
    ensures OpenTag() <= OpenTagSpace() && OpenTag() != [] && CloseTag() != []
  {
    TagShapes();
    TagsDiffer();
  }

  /** After both replacements neither envelope tag occurs any more. */
  lemma NeutralisedHasNoTag(s: seq<byte>)
    ensures !Occurs(Neutralised(s), CloseTag()) && !Occurs(Neutralised(s), OpenTagSpace())
  {
    TagFacts();
    var s1 := Replace(s, CloseTag(), CloseBlocked());
    assert CloseTag() <= CloseTag();
    if Occurs(Neutralised(s), CloseTag()) {
      OccurrenceHasSource(s1, OpenTag(), OpenBlocked(), CloseTag());
      OccurrenceHasSource(s, CloseTag(), CloseBlocked(), CloseTag());
    }
    if Occurs(Neutralised(s), OpenTagSpace()) {
      OccurrenceHasSource(s1, OpenTag(), OpenBlocked(), OpenTagSpace());
    }
  }

  lemma BlockedTagsAreLonger()
    ensures 0 < |CloseTag()| < |CloseBlocked()| && 0 < |OpenTag()| < |OpenBlocked()|
  {
  }

  /** A text is left alone exactly when it contains neither the closing tag nor the start of an opening one. */
  lemma NeutralisedUnchanged(s: seq<byte>)
    ensures Neutralised(s) == s <==> !Occurs(s, CloseTag()) && !Occurs(s, OpenTag())
  {
    BlockedTagsAreLonger();
    ReplaceGrows(s, CloseTag(), CloseBlocked());
    ReplaceGrows(Replace(s, CloseTag(), CloseBlocked()), OpenTag(), OpenBlocked());
  }

  // ----- Blank runs -----

  /** Keeps at most two newlines of every run; `run` newlines came just before. */
  function Collapse(s: seq<byte>, run: nat): seq<byte> {
    if s == [] then []
    else if s[0] == NL then (if run + 1 <= 2 then [NL] else []) + Collapse(s[1..], run + 1)
    else [s[0]] + Collapse(s[1..], 0)
  }

  lemma CollapseStep(out: seq<byte>, s: seq<byte>, i: nat, run: nat)
    requires i < |s|
    ensures out + Collapse(s[i..], run) ==
            if s[i] != NL then out + [s[i]] + Collapse(s[i + 1..], 0)
            else if run + 1 <= 2 then out + [s[i]] + Collapse(s[i + 1..], run + 1)
            else out + Collapse(s[i + 1..], run + 1)
  {
    assert s[i..][1..] == s[i + 1..];
    var c := Collapse(s[i + 1..], if s[i] == NL then run + 1 else 0);
    assert out + [s[i]] + c == out + ([s[i]] + c) && out + ([] + c) == out + c;
  }

  method CollapseBlankRuns(s: seq<byte>) returns (out: seq<byte>)
    ensures out == Collapse(s, 0)
  {
    out := [];
    var consecutive := 0;
    var i := 0;
    assert s[0..] == s;
    while i < |s|
      invariant i <= |s| && out + Collapse(s[i..], consecutive) == Collapse(s, 0)
    {
      CollapseStep(out, s, i, consecutive);
      if s[i] == NL {
        consecutive := consecutive + 1;
        if consecutive <= 2 {
          out := out + [s[i]];
        }
      } else {
        consecutive := 0;
        out := out + [s[i]];
      }
      i := i + 1;
    }
    assert s[i..] == [];
  }

  predicate TripleAt(s: seq<byte>, i: nat) {
    i + 2 < |s| && s[i] == NL && s[i + 1] == NL && s[i + 2] == NL
  }

  function Newlines(n: nat): seq<byte> { seq(n, _ => 0x0A) }

  lemma {:induction false} RunBecomes(n: nat, s: seq<byte>, run: nat)
    requires s == [] || s[0] != 0x0A
    ensures Collapse(Newlines(n) + s, run)
         == Newlines(if run >= 2 then 0 else if n < 2 - run then n else 2 - run) + Collapse(s, 0)
    decreases n
  {
    var t := Newlines(n) + s;
    if n == 0 {
      assert t == s && Newlines(0) + Collapse(s, 0) == Collapse(s, 0);
    } else {
      assert t[0] == 0x0A && t[1..] == Newlines(n - 1) + s;
      RunBecomes(n - 1, s, run + 1);
    }
  }

  /** Of every run of newlines two are left, or all of them when there are fewer; other bytes are left alone. */
  lemma CollapseRun(n: nat, s: seq<byte>, b: byte)
    requires (s == [] || s[0] != 0x0A) && b != 0x0A
    ensures Collapse(Newlines(n) + s, 0) == Newlines(if n < 2 then n else 2) + Collapse(s, 0)
    ensures Collapse([b] + s, 0) == [b] + Collapse(s, 0)
  {
    RunBecomes(n, s, 0);
    assert ([b] + s)[1..] == s;
  }

  lemma NoTripleCons(x: byte, c: seq<byte>)
    requires forall i: nat :: !TripleAt(c, i)
    requires x != NL || !(|c| >= 2 && c[0] == NL && c[1] == NL)
    ensures forall i: nat :: !TripleAt([x] + c, i)
  {
    forall i: nat ensures !TripleAt([x] + c, i) {
      if i > 0 { assert !TripleAt(c, i - 1); }
    }
  }

  /** Collapsed text never has three newlines in a row. */
  lemma {:induction false} CollapseLimitsRuns(s: seq<byte>, run: nat)
    ensures forall i: nat :: !TripleAt(Collapse(s, run), i)
    ensures run >= 1 ==> !(|Collapse(s, run)| >= 2 && Collapse(s, run)[0] == NL && Collapse(s, run)[1] == NL)
    ensures run >= 2 ==> !(|Collapse(s, run)| >= 1 && Collapse(s, run)[0] == NL)
  {
    if s != [] {
      var next := if s[0] == NL then run + 1 else 0;
      CollapseLimitsRuns(s[1..], next);
      var c := Collapse(s[1..], next);
      if s[0] != NL || run + 1 <= 2 {
        NoTripleCons(s[0], c);
      } else {
        assert [] + c == c;
      }
    }
  }

  /** The text without its newlines. */
  function Unbroken(s: seq<byte>): seq<byte> {
    if s == [] then [] else (if s[0] == NL then [] else [s[0]]) + Unbroken(s[1..])
  }

  lemma UnbrokenCons(x: byte, c: seq<byte>)
    ensures Unbroken([x] + c) == (if x == NL then [] else [x]) + Unbroken(c)
  {
    assert ([x] + c)[1..] == c;
  }

  /** Only newlines are dropped: everything else stays, in order. */
  lemma {:induction false} CollapseKeepsText(s: seq<byte>, run: nat)
    ensures Unbroken(Collapse(s, run)) == Unbroken(s) && |Collapse(s, run)| <= |s|
  {
    if s != [] {
      var next := if s[0] == NL then run + 1 else 0;
      CollapseKeepsText(s[1..], next);
      var r, c := Collapse(s, run), Collapse(s[1..], next);
      UnbrokenCons(s[0], c);
      assert r == if s[0] == NL && run + 1 > 2 then c else [s[0]] + c;
      assert [] + Unbroken(c) == Unbroken(c);
    }
  }

  /** No run of three newlines, the `run` ones just before the text counted in. */
  predicate KeptFrom(s: seq<byte>, run: nat) {
    s == [] || (if s[0] == NL then run + 1 <= 2 && KeptFrom(s[1..], run + 1) else KeptFrom(s[1..], 0))
  }

  lemma {:induction false} CollapseExact(s: seq<byte>, run: nat)
    ensures Collapse(s, run) == s <==> KeptFrom(s, run)
  {
    if s != [] {
      var next := if s[0] == NL then run + 1 else 0;
      CollapseExact(s[1..], next);
      CollapseKeepsText(s[1..], next);
      SameHead(s, Collapse(s[1..], next));
      assert Collapse(s, run) == if s[0] == NL && run + 1 > 2 then Collapse(s[1..], next)
                                 else [s[0]] + Collapse(s[1..], next);
    }
  }

  lemma SameHead(s: seq<byte>, c: seq<byte>)
    requires s != [] && |c| <= |s| - 1
    ensures c != s && ([s[0]] + c == s <==> c == s[1..])
  {
    assert s == [s[0]] + s[1..] && ([s[0]] + c)[1..] == c;
  }

  lemma {:induction false} NoTripleKept(s: seq<byte>, run: nat)
    requires run <= 2 && forall i: nat :: !TripleAt(s, i)
    requires run >= 1 ==> !(|s| >= 2 && s[0] == NL && s[1] == NL)
    requires run >= 2 ==> !(|s| >= 1 && s[0] == NL)
    ensures KeptFrom(s, run)
  {
    if s != [] {
      assert !TripleAt(s, 0);
      forall i: nat ensures !TripleAt(s[1..], i) {
        assert !TripleAt(s, i + 1);
      }
      NoTripleKept(s[1..], if s[0] == NL then run + 1 else 0);
    }
  }

  /** A text is left alone exactly when it has no three newlines in a row. */
  lemma CollapseUnchanged(s: seq<byte>)
    ensures Collapse(s, 0) == s <==> forall i: nat :: !TripleAt(s, i)
  {
    CollapseExact(s, 0);
    CollapseLimitsRuns(s, 0);
    if forall i: nat :: !TripleAt(s, i) {
      NoTripleKept(s, 0);
    }
  }

  lemma {:induction false} LineFrontKept(s: seq<byte>, front: seq<byte>)
    requires front <= Collapse(s, 0) && NL !in front
    ensures front <= s
  {
    if front != [] {
      assert front[0] == Collapse(s, 0)[0];
      assert front[0] in front;
      assert front[1..] <= Collapse(s[1..], 0) by {
        assert Collapse(s, 0)[1..] == Collapse(s[1..], 0);
      }
      LineFrontKept(s[1..], front[1..]);
      assert front == [s[0]] + front[1..];
    }
  }

  lemma FrontTag(s: seq<byte>, rest: seq<byte>, tag: seq<byte>)
    requires TagShaped(tag) && s != [] && rest == Collapse(s[1..], 0) && OccursAt([s[0]] + rest, tag, 0)
    ensures Occurs(s, tag)
  {
    var r := [s[0]] + rest;
    assert tag == r[..|tag|];
    assert tag[1..] == rest[..|tag| - 1];
    LineFrontKept(s[1..], tag[1..]);
    assert tag == [s[0]] + tag[1..];
    PrefixOccurs(s, tag);
  }

  /** Collapsing newlines creates no occurrence of a tag. */
  lemma {:induction false} CollapseCreatesNoTag(s: seq<byte>, run: nat, tag: seq<byte>)
    requires TagShaped(tag) && Occurs(Collapse(s, run), tag)
    ensures Occurs(s, tag)
  {
    var r := Collapse(s, run);
    var i: nat :| OccursAt(r, tag, i);
    assert r[i] == r[i..i + |tag|][0] == LT;
    if s[0] == NL {
      var r' := Collapse(s[1..], run + 1);
      if r == r' || i > 0 {
        if r != r' {
          Shift(r, tag, i, 1);
          assert r[1..] == r';
        }
        CollapseCreatesNoTag(s[1..], run + 1, tag);
        Unshift(s, tag, 1);
      }
    } else {
      var r' := Collapse(s[1..], 0);
      assert r[1..] == r';
      if i > 0 {
        Shift(r, tag, i, 1);
        CollapseCreatesNoTag(s[1..], 0, tag);
        Unshift(s, tag, 1);
      } else {
        FrontTag(s, r', tag);
      }
    }
  }

  // ----- Truncation -----

  function Note(): seq<byte> { Ascii("[...truncated]") }

  function Marker(): seq<byte> { [NL] + Note() }

  /** The last character boundary at or before `k`. */
  function CutPoint(s: seq<byte>, k: nat): (c: nat)
    ensures c <= k && (c == 0 || IsBoundary(s, c)) && forall j | c < j <= k :: !IsBoundary(s, j)
  {
    if k == 0 || IsBoundary(s, k) then k else CutPoint(s, k - 1)
  }

  function Truncated(s: seq<byte>, max: nat): seq<byte> {
    if |s| <= max then s
    else
      var budget := if max < |Marker()| then 0 else max - |Marker()|;
      s[..CutPoint(s, budget)] + Marker()
  }

  method TruncateWithMarker(s: seq<byte>, max: nat) returns (out: seq<byte>)
    ensures out == Truncated(s, max)
  {
    if |s| <= max {
      return s;
    }
    var budget := if max < |Marker()| then 0 else max - |Marker()|;
    var cut := if budget < |s| then budget else |s|;
    while cut > 0 && !IsBoundary(s, cut)
      invariant 0 <= cut <= budget && cut <= |s| && CutPoint(s, cut) == CutPoint(s, budget)
    {
      cut := cut - 1;
    }
    out := s[..cut] + Marker();
  }

  /** The last character boundary within the budget. */
  ghost predicate LongestCut(s: seq<byte>, budget: nat, cut: nat) {
    cut <= budget <= |s| && IsBoundary(s, cut) && forall j | cut < j <= budget :: !IsBoundary(s, j)
  }

  /** The result fits the limit, and no character is cut in two. */
  lemma TruncatedFits(s: seq<byte>, max: nat)
    requires WellFormed(s) && |Marker()| <= max
    ensures |Truncated(s, max)| <= max && WellFormed(Truncated(s, max))
    ensures |s| <= max <==> Truncated(s, max) == s
    ensures |s| > max ==>
              exists cut: nat :: LongestCut(s, max - |Marker()|, cut) && Truncated(s, max) == s[..cut] + Marker()
  {
    if |s| > max {
      assert LongestCut(s, max - |Marker()|, CutPoint(s, max - |Marker()|));
      var cut := CutPoint(s, max - |Marker()|);
      CutAtBoundary(s, cut);
      AsciiWellFormed(Marker());
      Joined(s[..cut], Marker());
    }
  }

  lemma NoTagAcross(s: seq<byte>, tag: seq<byte>, nl: nat, i: nat)
    requires TagShaped(tag) && nl < |s| && s[nl] == NL
    ensures i <= nl < i + |tag| ==> !OccursAt(s, tag, i)
  {
    if i <= nl < i + |tag| {
      assert tag[nl - i] in tag;
      Mismatch(s, tag, i, nl - i);
    }
  }

  /** An occurrence of a tag does not span a newline. */
  lemma OccurrenceInOneLine(a: seq<byte>, b: seq<byte>, tag: seq<byte>, i: nat)
    requires TagShaped(tag) && OccursAt(a + [NL] + b, tag, i)
    ensures OccursAt(a, tag, i) || (i > |a| && OccursAt(b, tag, i - |a| - 1))
  {
    var s := a + [NL] + b;
    NoTagAcross(s, tag, |a|, i);
    if i + |tag| <= |a| {
      assert a[i..i + |tag|] == s[i..i + |tag|];
    }
    if i > |a| {
      assert b[i - |a| - 1..i - |a| - 1 + |tag|] == s[i..i + |tag|];
    }
  }

  lemma OccurrenceKept(a: seq<byte>, s: seq<byte>, b: seq<byte>, tag: seq<byte>, i: nat)
    requires OccursAt(s, tag, i)
    ensures OccursAt(a + s + b, tag, |a| + i)
  {
    assert (a + s + b)[|a| + i..|a| + i + |tag|] == s[i..i + |tag|];
  }

  /** In a text with a single `<` at the front, a tag can occur only at the front. */
  lemma OnlyAtFront(line: seq<byte>, tag: seq<byte>, i: nat)
    requires TagShaped(tag) && OccursAt(line, tag, i)
    requires forall k | 0 < k < |line| :: line[k] != LT
    ensures i == 0
  {
    assert line[i] == line[i..i + |tag|][0];
  }

  lemma NoteHasNoTag(tag: seq<byte>)
    requires TagShaped(tag)
    ensures forall i: nat :: !OccursAt(Note(), tag, i)
  {
    var note := Note();
    assert Plain(note);
    forall i: nat ensures !OccursAt(note, tag, i) {
      Mismatch(note, tag, i, 0);
    }
  }

  /** Truncation creates no occurrence of a tag: the marker starts with a newline. */
  lemma TruncatedCreatesNoTag(s: seq<byte>, max: nat, tag: seq<byte>)
    requires TagShaped(tag) && Occurs(Truncated(s, max), tag)
    ensures Occurs(s, tag)
  {
    if |s| > max {
      var cut := CutPoint(s, if max < |Marker()| then 0 else max - |Marker()|);
      MarkerStartsLine(s[..cut]);
      NoteHasNoTag(tag);
      AppendedNoteHasNoTag(s, cut, Note(), tag);
    }
  }

  lemma MarkerStartsLine(u: seq<byte>)
    ensures u + Marker() == u + [NL] + Note()
  {
  }

  lemma AppendedNoteHasNoTag(s: seq<byte>, cut: nat, note: seq<byte>, tag: seq<byte>)
    requires TagShaped(tag) && cut <= |s| && forall i: nat :: !OccursAt(note, tag, i)
    requires Occurs(s[..cut] + [NL] + note, tag)
    ensures Occurs(s, tag)
  {
    var i: nat :| OccursAt(s[..cut] + [NL] + note, tag, i);
    OccurrenceInOneLine(s[..cut], note, tag, i);
    OccurrenceKept([], s[..cut], s[cut..], tag, i);
    assert [] + s[..cut] + s[cut..] == s;
  }

  // ----- The tool name -----

  predicate NameByte(b: byte) {
    || 'A' as byte <= b <= 'Z' as byte || 'a' as byte <= b <= 'z' as byte || '0' as byte <= b <= '9' as byte
    || b == '_' as byte || b == '-' as byte
  }

  function CleanName(cs: seq<seq<byte>>): seq<byte> {
    if cs == [] then []
    else (if |cs[0]| == 1 && NameByte(cs[0][0]) then cs[0] else ['_' as byte]) + CleanName(cs[1..])
  }

  function SafeToolName(name: seq<byte>): seq<byte>
    requires WellFormed(name)
  {
    if name == [] then Ascii("unknown") else CleanName(Chars(name))
  }

  lemma {:induction false} CleanNameIsClean(cs: seq<seq<byte>>)
    ensures |CleanName(cs)| == |cs| && forall i | 0 <= i < |CleanName(cs)| :: NameByte(CleanName(cs)[i])
  {
    if cs != [] {
      CleanNameIsClean(cs[1..]);
    }
  }

  /** The printed tool name is never empty and uses only letters, digits, `_` and `-`. */
  lemma SafeToolNameIsSafe(name: seq<byte>)
    requires WellFormed(name)
    ensures SafeToolName(name) != [] && forall i | 0 <= i < |SafeToolName(name)| :: NameByte(SafeToolName(name)[i])
    ensures name != [] ==> |SafeToolName(name)| == |Chars(name)|
  {
    CleanNameIsClean(Chars(name));
  }

  lemma {:induction false} CleanNameKept(name: seq<byte>)
    requires WellFormed(name) && forall i | 0 <= i < |name| :: NameByte(name[i])
    ensures CleanName(Chars(name)) == name
    decreases |name|
  {
    if name != [] {
      assert CharLen(name[0]) == 1;
      CleanNameKept(name[1..]);
    }
  }

  /** A name is printed as it is exactly when it is non-empty and safe already. */
  lemma SafeNamesKept(name: seq<byte>)
    requires WellFormed(name)
    ensures SafeToolName(name) == name <==> name != [] && forall i | 0 <= i < |name| :: NameByte(name[i])
  {
    SafeToolNameIsSafe(name);
    if forall i | 0 <= i < |name| :: NameByte(name[i]) { CleanNameKept(name); }
  }

  // ----- The envelope -----

  function Header(tool: seq<byte>): seq<byte> {
    OpenTagSpace() + Ascii("source=\"") + tool + Ascii("\">")
  }

  function Envelope(tool: seq<byte>, body: seq<byte>): seq<byte> {
    Header(tool) + [NL] + (body + [NL] + CloseTag())
  }

  /** The passes in their order; `nfc` stands for Unicode normalisation. */
  function Normalised(nfc: seq<byte> -> seq<byte>, raw: seq<byte>): Option<seq<byte>>
    requires WellFormed(raw)
  {
    StripExact(raw);
    match Strip(raw)
    case None => None
    case Some(text) =>
      Some(Truncated(Collapse(Neutralised(nfc(SafeText(text))), 0), MAX_OUTPUT_BYTES))
  }

  function Sanitized(nfc: seq<byte> -> seq<byte>, tool: seq<byte>, raw: seq<byte>): Option<seq<byte>>
    requires WellFormed(tool) && WellFormed(raw)
  {
    match Normalised(nfc, raw)
    case None => None
    case Some(body) => Some(Envelope(SafeToolName(tool), body))
  }

  method SanitizeToolOutput(nfc: seq<byte> -> seq<byte>, tool: seq<byte>, raw: seq<byte>)
    returns (r: Option<seq<byte>>)
    requires WellFormed(tool) && WellFormed(raw)
    ensures r == Sanitized(nfc, tool, raw)
  {
    StripExact(raw);
    var stripped := StripAnsi(raw);
    if stripped.None? {
      return None;
    }
    var text := StripDangerousUnicode(stripped.value);
    text := CollapseBlankRuns(Neutralised(nfc(text)));
    text := TruncateWithMarker(text, MAX_OUTPUT_BYTES);
    r := Some(Envelope(SafeToolName(tool), text));
  }

  lemma HeaderShape(tool: seq<byte>)
    requires forall i | 0 <= i < |tool| :: NameByte(tool[i])
    ensures OccursAt(Header(tool), OpenTagSpace(), 0)
    ensures forall k | 0 < k < |Header(tool)| :: Header(tool)[k] != LT
  {
    TagShapes();
    var o := OpenTagSpace();
    var h := Header(tool);
    assert h[0..0 + |o|] == o;
    forall k | 0 < k < |h| ensures h[k] != LT {
      if k < |o| {
        assert h[k] == o[1..][k - 1];
      }
    }
  }

  lemma CloseShape()
    ensures OccursAt(CloseTag(), CloseTag(), 0) && forall k | 0 < k < |CloseTag()| :: CloseTag()[k] != LT
  {
    TagShapes();
    var c := CloseTag();
    assert c[0..|c|] == c;
    forall k | 0 < k < |c| ensures c[k] != LT {
      assert c[k] == c[1..][k - 1];
    }
  }

  lemma FrontsDiffer(tool: seq<byte>)
    ensures !OccursAt(Header(tool), CloseTag(), 0) && !OccursAt(CloseTag(), OpenTagSpace(), 0)
  {
    TagNameIsPlain();
    assert CloseTag()[1] == '/' as byte && Header(tool)[1] == TagName()[0] == OpenTagSpace()[1] != '/' as byte;
    Mismatch(Header(tool), CloseTag(), 0, 1);
    Mismatch(CloseTag(), OpenTagSpace(), 0, 1);
  }

  /** An envelope around a body without tags: the opening tag occurs only at the very start and the
      closing tag only at the very end. */
  lemma EnvelopeExact(tool: seq<byte>, body: seq<byte>, i: nat)
    requires forall k | 0 <= k < |tool| :: NameByte(tool[k])
    requires !Occurs(body, CloseTag()) && !Occurs(body, OpenTagSpace())
    ensures OccursAt(Envelope(tool, body), OpenTagSpace(), i) <==> i == 0
    ensures OccursAt(Envelope(tool, body), CloseTag(), i) <==> i == |Envelope(tool, body)| - |CloseTag()|
  {
    var e, h, c := Envelope(tool, body), Header(tool), CloseTag();
    HeaderShape(tool);
    CloseShape();
    FrontsDiffer(tool);
    assert e == [] + h + ([NL] + (body + [NL] + c)) && e == (h + [NL] + body + [NL]) + c + [];
    OccurrenceKept([], h, [NL] + (body + [NL] + c), OpenTagSpace(), 0);
    OccurrenceKept(h + [NL] + body + [NL], c, [], c, 0);
    if OccursAt(e, OpenTagSpace(), i) {
      TagPlaces(tool, body, OpenTagSpace(), i);
    }
    if OccursAt(e, c, i) {
      TagPlaces(tool, body, c, i);
    }
  }

  /** A tag that is not in the body can only start the header or the last line. */
  lemma TagPlaces(tool: seq<byte>, body: seq<byte>, tag: seq<byte>, i: nat)
    requires tag == OpenTagSpace() || tag == CloseTag()
    requires (forall k | 0 <= k < |tool| :: NameByte(tool[k])) && !Occurs(body, tag)
    requires OccursAt(Envelope(tool, body), tag, i)
    ensures || (i == 0 && OccursAt(Header(tool), tag, 0))
            || (i == |Header(tool)| + |body| + 2 && OccursAt(CloseTag(), tag, 0))
  {
    var h := Header(tool);
    TagShapes();
    HeaderShape(tool);
    CloseShape();
    OccurrenceInOneLine(h, body + [NL] + CloseTag(), tag, i);
    if OccursAt(h, tag, i) {
      OnlyAtFront(h, tag, i);
    } else {
      OccurrenceInOneLine(body, CloseTag(), tag, i - |h| - 1);
      assert !OccursAt(body, tag, i - |h| - 1);
      OnlyAtFront(CloseTag(), tag, i - |h| - 1 - |body| - 1);
    }
  }

  lemma NormalisedHasNoTag(nfc: seq<byte> -> seq<byte>, raw: seq<byte>)
    requires WellFormed(raw) && Normalised(nfc, raw).Some?
    ensures var body := Normalised(nfc, raw).value;
            !Occurs(body, CloseTag()) && !Occurs(body, OpenTagSpace())
  {
    StripExact(raw);
    var body := Normalised(nfc, raw).value;
    var n := Neutralised(nfc(SafeText(Strip(raw).value)));
    TagShapes();
    NeutralisedHasNoTag(nfc(SafeText(Strip(raw).value)));
    if Occurs(body, CloseTag()) {
      TruncatedCreatesNoTag(Collapse(n, 0), MAX_OUTPUT_BYTES, CloseTag());
      CollapseCreatesNoTag(n, 0, CloseTag());
    }
    if Occurs(body, OpenTagSpace()) {
      TruncatedCreatesNoTag(Collapse(n, 0), MAX_OUTPUT_BYTES, OpenTagSpace());
      CollapseCreatesNoTag(n, 0, OpenTagSpace());
    }
  }

  /** For every tool name, every text and every normalisation: the sanitiser finishes exactly when the
      escape stripper cuts no character, and then the envelope cannot be spoofed - its opening tag
      occurs once, at the start, and its closing tag once, at the end. */
  lemma EnvelopeCannotBeSpoofed(nfc: seq<byte> -> seq<byte>, tool: seq<byte>, raw: seq<byte>)
    requires WellFormed(tool) && WellFormed(raw)
    ensures var r := Sanitized(nfc, tool, raw);
            && (r.Some? <==> CutsNoCharacter(raw))
            && (r.Some? ==> forall i: nat ::
                  && (OccursAt(r.value, OpenTagSpace(), i) <==> i == 0)
                  && (OccursAt(r.value, CloseTag(), i) <==> i == |r.value| - |CloseTag()|))
  {
    StripExact(raw);
    var r := Sanitized(nfc, tool, raw);
    if r.Some? {
      NormalisedHasNoTag(nfc, raw);
      SafeToolNameIsSafe(tool);
      forall i: nat ensures
        && (OccursAt(r.value, OpenTagSpace(), i) <==> i == 0)
        && (OccursAt(r.value, CloseTag(), i) <==> i == |r.value| - |CloseTag()|)
      {
        EnvelopeExact(SafeToolName(tool), Normalised(nfc, raw).value, i);
      }
    }
  }

  /** The two lines around a body, spelled out. */
  function TopLine(tool: seq<byte>): seq<byte> {
    [0x3C] + Ascii("untrusted_tool_output") + Ascii(" source=\"") + tool + [0x22, 0x3E, 0x0A]
  }

  function BottomLine(): seq<byte> { [0x0A, 0x3C, 0x2F] + Ascii("untrusted_tool_output") + [0x3E] }

  lemma SourceSpelled()
    ensures Ascii(" ") + Ascii("source=\"") == Ascii(" source=\"")
    ensures Ascii("\">") + [NL] == [0x22, 0x3E, 0x0A]
    ensures Ascii("") == [] && Ascii("/") == [0x2F] && Ascii(">") == [0x3E]
  {
  }

  lemma Joints(lt: seq<byte>, name: seq<byte>, space: seq<byte>, source: seq<byte>, tool: seq<byte>, end: seq<byte>,
               nl: seq<byte>)
    ensures lt + [] + name + space + source + tool + end + nl == lt + name + (space + source) + tool + (end + nl)
  {
  }

  lemma EnvelopeSpelled(tool: seq<byte>, body: seq<byte>)
    ensures Envelope(tool, body) == TopLine(tool) + body + BottomLine()
  {
    SourceSpelled();
    Joints([0x3C], TagName(), Ascii(" "), Ascii("source=\""), tool, Ascii("\">"), [NL]);
    assert Header(tool) + [NL] == TopLine(tool);
    assert [NL] + CloseTag() == BottomLine();
  }

  lemma TruncatedIsShort(s: seq<byte>)
    ensures |Truncated(s, MAX_OUTPUT_BYTES)| <= 8192
  {
  }

  /** Every output is one opening tag with the cleaned tool name, a body of at most 8192 bytes on lines of its own, and
      one closing tag. */
  lemma OutputSpelled(nfc: seq<byte> -> seq<byte>, tool: seq<byte>, raw: seq<byte>)
    requires WellFormed(tool) && WellFormed(raw) && Sanitized(nfc, tool, raw).Some?
    ensures exists body: seq<byte> ::
              |body| <= 8192
              && Sanitized(nfc, tool, raw).value == TopLine(SafeToolName(tool)) + body + BottomLine()
  {
    StripExact(raw);
    var body := Normalised(nfc, raw).value;
    TruncatedIsShort(Collapse(Neutralised(nfc(SafeText(Strip(raw).value))), 0));
    EnvelopeSpelled(SafeToolName(tool), body);
    assert |body| <= 8192;
  }

  lemma MarkerSpelled()
    ensures Marker() == [0x0A] + Ascii("[...truncated]") && |Marker()| == 15
  {
  }

  /** No pass has anything to do on the text. */
  ghost predicate Harmless(nfc: seq<byte> -> seq<byte>, raw: seq<byte>)
    requires WellFormed(raw)
  {
    && EscFree(raw) && (forall c | c in Chars(raw) :: !DangerousChar(c)) && nfc(raw) == raw
    && !Occurs(raw, CloseTag()) && !Occurs(raw, OpenTag())
    && (forall i: nat :: !TripleAt(raw, i)) && |raw| <= MAX_OUTPUT_BYTES
  }

  /** A harmless text goes through all passes unchanged. */
  lemma HarmlessTextKept(nfc: seq<byte> -> seq<byte>, tool: seq<byte>, raw: seq<byte>)
    requires WellFormed(tool) && WellFormed(raw) && Harmless(nfc, raw)
    ensures Sanitized(nfc, tool, raw) == Some(Envelope(SafeToolName(tool), raw))
  {
    StripIdentity(raw);
    SafeTextUnchanged(raw);
    NeutralisedUnchanged(raw);
    CollapseUnchanged(raw);
  }
}
