/** What is left of envelope tags inside a sanitised body: every one is marked as blocked, unless the
    truncation cuts the mark off. */
module BlockedTags {
  import opened Wrappers
  import opened Bytes
  import opened Utf8
  import opened AnsiStrip
  import opened CharFilter
  import opened Replacing
  import opened Sanitize

  /** Wherever the pattern occurs, the longer text occurs. */
  ghost predicate Follows(s: seq<byte>, pat: seq<byte>, rep: seq<byte>) {
    forall i: nat :: OccursAt(s, pat, i) ==> OccursAt(s, rep, i)
  }

  /** Every start of an opening tag goes on with the mark. */
  ghost predicate Blocked(s: seq<byte>) { Follows(s, OpenTag(), OpenBlocked()) }

  /** The replacement continues the pattern and both have the shape of a tag. */
  predicate Marks(pat: seq<byte>, rep: seq<byte>) { TagShaped(pat) && TagShaped(rep) && pat < rep }

  lemma OpenBlockedMarks()
    ensures Marks(OpenTag(), OpenBlocked())
  {
    TagNameIsPlain();
    TagFromPlain(Ascii(""), TagName(), Ascii(""));
    TagShapes();
  }

  lemma OccursFromTail(s: seq<byte>, pat: seq<byte>, n: nat, i: nat)
    requires n <= |s|
    ensures OccursAt(s[n..], pat, i) <==> OccursAt(s, pat, n + i)
  {
    assert n + i + |pat| <= |s| ==> s[n..][i..i + |pat|] == s[n + i..n + i + |pat|];
  }

  lemma OccursAtFront(s: seq<byte>, pat: seq<byte>)
    ensures OccursAt(s, pat, 0) <==> pat <= s
  {
    assert |pat| <= |s| ==> s[0..0 + |pat|] == s[..|pat|];
  }

  // ----- Replacement -----

  /** The pattern at the front of the replaced text was at the front before. */
  lemma FrontWasThere(s: seq<byte>, pat: seq<byte>, rep: seq<byte>)
    requires Marks(pat, rep) && |s| >= |pat| && pat <= Replace(s, pat, rep)
    ensures pat <= s
  {
    var r := Replace(s, pat, rep);
    if r == [s[0]] + Replace(s[1..], pat, rep) {
      var r' := Replace(s[1..], pat, rep);
      assert r[1..] == r' && pat[1..] <= r';
      PlainFrontKept(s[1..], pat, rep, pat[1..]);
      assert pat == [s[0]] + pat[1..];
    }
  }

  /** Inside a copy of the replacement the pattern occurs only at the front. */
  lemma OnceInReplacement(rep: seq<byte>, rest: seq<byte>, pat: seq<byte>, i: nat)
    requires Marks(pat, rep) && 0 < i < |rep|
    ensures !OccursAt(rep + rest, pat, i)
  {
    assert (rep + rest)[i] == rep[1..][i - 1];
    Mismatch(rep + rest, pat, i, 0);
  }

  lemma {:induction false} ReplacedFollows(s: seq<byte>, pat: seq<byte>, rep: seq<byte>)
    requires Marks(pat, rep)
    ensures Follows(Replace(s, pat, rep), pat, rep)
    decreases |s|
  {
    var r := Replace(s, pat, rep);
    if |s| >= |pat| {
      var n := if pat <= s then |pat| else 1;
      var front := if pat <= s then rep else [s[0]];
      var r' := Replace(s[n..], pat, rep);
      ReplacedFollows(s[n..], pat, rep);
      assert r == front + r' && r[|front|..] == r';
      forall i: nat | OccursAt(r, pat, i) ensures OccursAt(r, rep, i) {
        if i >= |front| {
          OccursFromTail(r, pat, |front|, i - |front|);
          OccursFromTail(r, rep, |front|, i - |front|);
        } else {
          FrontFollows(s, pat, rep, i, r');
        }
      }
    }
  }

  lemma FrontFollows(s: seq<byte>, pat: seq<byte>, rep: seq<byte>, i: nat, rest: seq<byte>)
    requires Marks(pat, rep) && |s| >= |pat|
    requires Replace(s, pat, rep) == (if pat <= s then rep else [s[0]]) + rest
    requires i < if pat <= s then |rep| else 1
    requires OccursAt(Replace(s, pat, rep), pat, i)
    ensures OccursAt(Replace(s, pat, rep), rep, i)
  {
    var r := Replace(s, pat, rep);
    if i == 0 {
      OccursAtFront(r, pat);
      FrontWasThere(s, pat, rep);
      OccursAtFront(r, rep);
    } else {
      OnceInReplacement(rep, rest, pat, i);
    }
  }

  /** After both replacements every start of an opening tag carries the mark. */
  lemma NeutralisedIsBlocked(s: seq<byte>)
    ensures Blocked(Neutralised(s))
  {
    OpenBlockedMarks();
    ReplacedFollows(Replace(s, CloseTag(), CloseBlocked()), OpenTag(), OpenBlocked());
  }

  // ----- Newlines -----

  lemma {:induction false} LineFrontCopied(s: seq<byte>, front: seq<byte>)
    requires front <= s && NL !in front
    ensures front <= Collapse(s, 0)
  {
    if front != [] {
      assert s[0] == front[0] && front[0] in front;
      LineFrontCopied(s[1..], front[1..]);
      var c := Collapse(s[1..], 0);
      assert front == [s[0]] + front[1..] && Collapse(s, 0) == [s[0]] + c;
    }
  }

  lemma TailFollows(s: seq<byte>, pat: seq<byte>, rep: seq<byte>)
    requires Follows(s, pat, rep) && s != []
    ensures Follows(s[1..], pat, rep)
  {
    forall i: nat | OccursAt(s[1..], pat, i) ensures OccursAt(s[1..], rep, i) {
      OccursFromTail(s, pat, 1, i);
      OccursFromTail(s, rep, 1, i);
    }
  }

  /** At the front of a line nothing changes. */
  lemma LineFrontFollows(s: seq<byte>, pat: seq<byte>, rep: seq<byte>)
    requires Marks(pat, rep) && Follows(s, pat, rep) && s != [] && s[0] != NL
    requires OccursAt(Collapse(s, 0), pat, 0)
    ensures OccursAt(Collapse(s, 0), rep, 0)
  {
    var r, c := Collapse(s, 0), Collapse(s[1..], 0);
    assert r == [s[0]] + c && r[1..] == c;
    OccursAtFront(r, pat);
    assert pat[1..] <= c;
    LineFrontKept(s[1..], pat[1..]);
    assert pat == [s[0]] + pat[1..] && s == [s[0]] + s[1..];
    OccursAtFront(s, pat);
    OccursAtFront(s, rep);
    LineFrontCopied(s, rep);
    OccursAtFront(r, rep);
  }

  lemma {:induction false} CollapseFollows(s: seq<byte>, run: nat, pat: seq<byte>, rep: seq<byte>)
    requires Marks(pat, rep) && Follows(s, pat, rep)
    ensures Follows(Collapse(s, run), pat, rep)
  {
    if s != [] {
      var r, c := Collapse(s, run), Collapse(s[1..], if s[0] == NL then run + 1 else 0);
      TailFollows(s, pat, rep);
      CollapseFollows(s[1..], if s[0] == NL then run + 1 else 0, pat, rep);
      if r != c {
        assert r == [s[0]] + c && r[1..] == c;
        forall i: nat | OccursAt(r, pat, i) ensures OccursAt(r, rep, i) {
          if i > 0 {
            OccursFromTail(r, pat, 1, i - 1);
            OccursFromTail(r, rep, 1, i - 1);
          } else {
            assert r[0] == r[0..|pat|][0] == LT;
            assert r == Collapse(s, 0);
            LineFrontFollows(s, pat, rep);
          }
        }
      }
    }
  }

  // ----- Truncation -----

  /** The cut falls behind the start of an opening tag and before the end of its mark. */
  ghost predicate CutsMark(s: seq<byte>, cut: nat) {
    exists i: nat :: OccursAt(s, OpenTag(), i) && i + |OpenTag()| <= cut < i + |OpenBlocked()|
  }

  /** What occurs in a text cut off before a note: what ends before the cut. */
  lemma OccursInCut(s: seq<byte>, cut: nat, tag: seq<byte>, i: nat)
    requires TagShaped(tag) && cut <= |s|
    ensures OccursAt(s[..cut] + Marker(), tag, i) <==> OccursAt(s, tag, i) && i + |tag| <= cut
  {
    var a, out := s[..cut], s[..cut] + Marker();
    assert out == a + [NL] + Note();
    NoteHasNoTag(tag);
    assert i + |tag| <= cut ==> a[i..i + |tag|] == s[i..i + |tag|] == out[i..i + |tag|];
    if OccursAt(out, tag, i) {
      OccurrenceInOneLine(a, Note(), tag, i);
    }
  }

  lemma CutBlocked(s: seq<byte>, cut: nat)
    requires Blocked(s) && cut <= |s|
    ensures Blocked(s[..cut] + Marker()) <==> !CutsMark(s, cut)
  {
    OpenBlockedMarks();
    var out := s[..cut] + Marker();
    forall i: nat
      ensures OccursAt(out, OpenTag(), i) <==> OccursAt(s, OpenTag(), i) && i + |OpenTag()| <= cut
      ensures OccursAt(out, OpenBlocked(), i) <==> OccursAt(s, OpenBlocked(), i) && i + |OpenBlocked()| <= cut
    {
      OccursInCut(s, cut, OpenTag(), i);
      OccursInCut(s, cut, OpenBlocked(), i);
    }
  }

  /** The text before truncation: all passes but the last. */
  function Prepared(nfc: seq<byte> -> seq<byte>, text: seq<byte>): seq<byte>
    requires WellFormed(text)
  {
    Collapse(Neutralised(nfc(SafeText(text))), 0)
  }

  lemma PreparedIsBlocked(nfc: seq<byte> -> seq<byte>, text: seq<byte>)
    requires WellFormed(text)
    ensures Blocked(Prepared(nfc, text))
  {
    NeutralisedIsBlocked(nfc(SafeText(text)));
    OpenBlockedMarks();
    CollapseFollows(Neutralised(nfc(SafeText(text))), 0, OpenTag(), OpenBlocked());
  }

  /** In the body of an envelope every start of an opening tag carries its whole mark, exactly when the text
      fits or the cut does not fall inside a mark. */
  lemma BodyIsBlockedExactly(nfc: seq<byte> -> seq<byte>, raw: seq<byte>)
    requires WellFormed(raw) && CutsNoCharacter(raw)
    ensures Strip(raw).Some? && WellFormed(Strip(raw).value) && Normalised(nfc, raw).Some?
    ensures var text := Prepared(nfc, Strip(raw).value);
            Blocked(Normalised(nfc, raw).value)
            <==> |text| <= MAX_OUTPUT_BYTES || !CutsMark(text, CutPoint(text, MAX_OUTPUT_BYTES - |Marker()|))
  {
    StripExact(raw);
    var text := Prepared(nfc, Strip(raw).value);
    PreparedIsBlocked(nfc, Strip(raw).value);
    if |text| > MAX_OUTPUT_BYTES {
      CutBlocked(text, CutPoint(text, MAX_OUTPUT_BYTES - |Marker()|));
    }
  }

  // ----- A witness -----

  function Filler(n: nat): (s: seq<byte>)
    ensures |s| == n && forall i | 0 <= i < n :: s[i] == 0x78
  {
    seq(n, _ => 0x78)
  }

  /** A marked tag between fillers, the first of length `n`. */
  function MarkedAt(n: nat): seq<byte> { Filler(n) + OpenBlocked() + Filler(MAX_OUTPUT_BYTES) }

  lemma MarkedAtFacts(n: nat)
    ensures var s := MarkedAt(n);
            |s| > MAX_OUTPUT_BYTES && OccursAt(s, OpenTag(), n) && OccursAt(s, OpenBlocked(), n)
            && forall i | 0 <= i < |s| && i != n :: s[i] != LT
  {
    OpenBlockedMarks();
    var s, b := MarkedAt(n), OpenBlocked();
    assert s[n..n + |b|] == b;
    assert b[..|OpenTag()|] == OpenTag();
    assert s[n..n + |OpenTag()|] == OpenTag();
    forall i | 0 <= i < |s| && i != n ensures s[i] != LT {
      if n < i < n + |b| { assert s[i] == b[1..][i - n - 1]; }
    }
  }

  lemma MarkedIsBlocked(n: nat)
    ensures Blocked(MarkedAt(n))
  {
    OpenBlockedMarks();
    MarkedAtFacts(n);
    forall i: nat | OccursAt(MarkedAt(n), OpenTag(), i) ensures OccursAt(MarkedAt(n), OpenBlocked(), i) {
      assert MarkedAt(n)[i] == MarkedAt(n)[i..i + |OpenTag()|][0] == LT;
    }
  }

  lemma CutInsideMark(budget: nat)
    requires |OpenTag()| <= budget <= MAX_OUTPUT_BYTES
    ensures var s := MarkedAt(budget - |OpenTag()|); CutPoint(s, budget) == budget && CutsMark(s, budget)
  {
    OpenBlockedMarks();
    var n := budget - |OpenTag()|;
    MarkedAtFacts(n);
    var s := MarkedAt(n);
    assert s[budget] == OpenBlocked()[|OpenTag()|];
    TagNameIsPlain();
    assert OpenBlocked()[|OpenTag()|] == '_' as byte;
  }

  lemma MarkerLength()
    ensures |Marker()| == 15 && |OpenTag()| == 22
  {
    TagNameIsPlain();
  }

  // ----- A raw output that gets there -----

  predicate PrintableAscii(s: seq<byte>) { forall i | 0 <= i < |s| :: 0x20 <= s[i] <= 0x7E }

  /** Tool output with the start of an opening tag behind `n` letters, and much behind it. */
  function TagAt(n: nat): seq<byte> { Filler(n) + OpenTag() + Filler(MAX_OUTPUT_BYTES) }

  lemma TagBytes()
    ensures PrintableAscii(OpenTag()) && OpenTag()[0] == LT && OpenTag()[1] == 'u' as byte && |OpenTag()| == 22
  {
    TagNameIsPlain();
    var name := "untrusted_tool_output";
    assert forall i | 0 <= i < |name| :: 'a' <= name[i] <= 'z' || name[i] == '_';
    assert TagName()[0] == 'u' as byte;
  }

  lemma TagAtFacts(n: nat)
    ensures var s := TagAt(n);
            PrintableAscii(s) && forall i | 0 <= i < |s| && s[i] == LT :: i == n && s[i + 1] == 'u' as byte
  {
    TagBytes();
    OpenBlockedMarks();
    var s, t := TagAt(n), OpenTag();
    forall i | 0 <= i < |s| ensures 0x20 <= s[i] <= 0x7E && (s[i] == LT ==> i == n && s[i + 1] == 'u' as byte) {
      if n <= i < n + |t| {
        assert s[i] == t[i - n];
        assert i > n ==> s[i] == t[1..][i - n - 1];
        assert i == n ==> s[i + 1] == t[1];
      }
    }
  }

  /** Printable ASCII passes the escape stripper and the character filter unchanged. */
  lemma {:induction false} PrintableIsSafe(s: seq<byte>)
    requires PrintableAscii(s)
    ensures WellFormed(s) && EscFree(s) && forall c | c in Chars(s) :: !DangerousChar(c)
    decreases |s|
  {
    AsciiWellFormed(s);
    if s != [] {
      PrintableIsSafe(s[1..]);
      assert CharLen(s[0]) == 1 && Chars(s) == [s[..1]] + Chars(s[1..]);
    }
  }

  lemma PrintablePasses(s: seq<byte>)
    requires PrintableAscii(s)
    ensures WellFormed(s) && CutsNoCharacter(s) && Strip(s) == Some(s) && SafeText(s) == s
  {
    PrintableIsSafe(s);
    StripIdentity(s);
    StripExact(s);
    SafeTextUnchanged(s);
  }

  /** Letters in front of the text are copied. */
  lemma {:induction false} ReplaceBehind(n: nat, s: seq<byte>, pat: seq<byte>, rep: seq<byte>)
    requires pat != [] && pat[0] == LT
    ensures Replace(Filler(n) + s, pat, rep) == Filler(n) + Replace(s, pat, rep)
  {
    if n == 0 {
      assert Filler(0) + s == s && Filler(0) + Replace(s, pat, rep) == Replace(s, pat, rep);
    } else {
      var t := Filler(n) + s;
      assert t == [0x78] + (Filler(n - 1) + s) && t[1..] == Filler(n - 1) + s;
      ReplaceBehind(n - 1, s, pat, rep);
      assert !(pat <= t) by { assert t[0] != pat[0]; }
      ShortText(t, pat, rep);
      assert Filler(n) + Replace(s, pat, rep) == [0x78] + (Filler(n - 1) + Replace(s, pat, rep));
    }
  }

  /** A text that does not open with the pattern keeps its first byte. */
  lemma ShortText(t: seq<byte>, pat: seq<byte>, rep: seq<byte>)
    requires pat != [] && t != [] && !(pat <= t)
    ensures Replace(t, pat, rep) == [t[0]] + Replace(t[1..], pat, rep)
  {
    assert |t| < |pat| ==> Replace(t[1..], pat, rep) == t[1..];
  }

  lemma NoCloseTag(n: nat)
    ensures !Occurs(TagAt(n), CloseTag())
  {
    TagAtFacts(n);
    TagNameIsPlain();
    assert CloseTag()[0] == LT && CloseTag()[1] == '/' as byte;
    forall i: nat ensures !OccursAt(TagAt(n), CloseTag(), i) {
      if i < |TagAt(n)| && TagAt(n)[i] == LT {
        Mismatch(TagAt(n), CloseTag(), i, 1);
      } else {
        Mismatch(TagAt(n), CloseTag(), i, 0);
      }
    }
  }

  lemma NoTagInFiller(n: nat, pat: seq<byte>)
    requires pat != [] && pat[0] == LT
    ensures !Occurs(Filler(n), pat)
  {
    forall i: nat ensures !OccursAt(Filler(n), pat, i) {
      Mismatch(Filler(n), pat, i, 0);
    }
  }

  lemma ReplaceAtFront(pat: seq<byte>, rest: seq<byte>, rep: seq<byte>)
    requires pat != []
    ensures Replace(pat + rest, pat, rep) == rep + Replace(rest, pat, rep)
  {
    assert pat <= pat + rest && (pat + rest)[|pat|..] == rest;
  }

  lemma TagIsMarked(n: nat)
    ensures Neutralised(TagAt(n)) == MarkedAt(n)
  {
    TagBytes();
    BlockedTagsAreLonger();
    NoCloseTag(n);
    ReplaceGrows(TagAt(n), CloseTag(), CloseBlocked());
    var tail := Filler(MAX_OUTPUT_BYTES);
    assert TagAt(n) == Filler(n) + (OpenTag() + tail) && MarkedAt(n) == Filler(n) + (OpenBlocked() + tail);
    ReplaceBehind(n, OpenTag() + tail, OpenTag(), OpenBlocked());
    ReplaceAtFront(OpenTag(), tail, OpenBlocked());
    NoTagInFiller(MAX_OUTPUT_BYTES, OpenTag());
    ReplaceGrows(tail, OpenTag(), OpenBlocked());
  }

  lemma NoNewlineKept(s: seq<byte>)
    requires NL !in s
    ensures Collapse(s, 0) == s
  {
    CollapseUnchanged(s);
    forall i: nat ensures !TripleAt(s, i) {
      assert i < |s| ==> s[i] in s;
    }
  }

  lemma MarkedHasNoNewline(n: nat)
    ensures NL !in MarkedAt(n)
  {
    OpenBlockedMarks();
    assert NL !in OpenBlocked();
  }

  /** A raw output of printable ASCII whose body ends in an unmarked start of an opening tag, whatever the tool
      and whatever a normalisation does that keeps printable ASCII. */
  lemma CutCanOpenATag(nfc: seq<byte> -> seq<byte>)
    requires forall s | PrintableAscii(s) :: nfc(s) == s
    ensures exists raw :: PrintableAscii(raw) && WellFormed(raw) && CutsNoCharacter(raw)
              && Normalised(nfc, raw).Some? && !Blocked(Normalised(nfc, raw).value)
  {
    MarkerLength();
    var budget := MAX_OUTPUT_BYTES - |Marker()|;
    var n := budget - |OpenTag()|;
    var raw := TagAt(n);
    TagAtFacts(n);
    PrintablePasses(raw);
    TagIsMarked(n);
    MarkedHasNoNewline(n);
    NoNewlineKept(MarkedAt(n));
    assert Prepared(nfc, raw) == MarkedAt(n);
    MarkedAtFacts(n);
    CutInsideMark(budget);
    BodyIsBlockedExactly(nfc, raw);
  }
}
