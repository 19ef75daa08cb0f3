/** What a sanitised body is made of: whole characters, none of them dangerous, and no long runs of newlines. */
module CleanOutput {
  import opened Wrappers
  import opened Bytes
  import opened Utf8
  import opened AnsiStrip
  import opened CharFilter
  import opened Replacing
  import opened Sanitize

  lemma Grouped(u: seq<byte>, v: seq<byte>, w: seq<byte>)
    ensures u + (v + w) == u + v + w
  {
  }

  /** The first byte, the rest of a front part, and what follows it. */
  lemma HeadOfFront(s: seq<byte>, n: nat)
    requires 0 < n <= |s|
    ensures s[1..][n - 1..] == s[n..] && [s[0]] + s[1..][..n - 1] == s[..n] && s[..n] + s[n..] == s
  {
  }

  /** Whole characters, none of them bad. */
  predicate Good(s: seq<byte>, bad: seq<byte> -> bool) {
    s == [] || (StartsWithChar(s) && !bad(s[..CharLen(s[0])]) && Good(s[CharLen(s[0])..], bad))
  }

  lemma {:induction false} GoodExactly(s: seq<byte>, bad: seq<byte> -> bool)
    ensures Good(s, bad) <==> WellFormed(s) && forall c | c in Chars(s) :: !bad(c)
    decreases |s|
  {
    if s != [] && StartsWithChar(s) {
      GoodExactly(s[CharLen(s[0])..], bad);
      if WellFormed(s) {
        First(s, bad);
      }
    }
  }

  lemma GoodFirst(c: seq<byte>, rest: seq<byte>, bad: seq<byte> -> bool)
    requires c != [] && |c| == CharLen(c[0]) && StartsWithChar(c) && !bad(c) && Good(rest, bad)
    ensures Good(c + rest, bad)
  {
    assert (c + rest)[..|c|] == c && (c + rest)[|c|..] == rest;
  }

  lemma {:induction false} GoodJoined(s: seq<byte>, t: seq<byte>, bad: seq<byte> -> bool)
    requires Good(s, bad) && Good(t, bad)
    ensures Good(s + t, bad)
    decreases |s|
  {
    if s == [] {
      assert s + t == t;
    } else {
      var n := CharLen(s[0]);
      GoodJoined(s[n..], t, bad);
      GoodFirst(s[..n], s[n..] + t, bad);
      Grouped(s[..n], s[n..], t);
      HeadOfFront(s, n);
    }
  }

  lemma FrontOfFront(s: seq<byte>, n: nat, k: nat)
    requires n <= k <= |s|
    ensures s[..n] + s[n..][..k - n] == s[..k]
  {
  }

  lemma {:induction false} GoodCut(s: seq<byte>, k: nat, bad: seq<byte> -> bool)
    requires Good(s, bad) && k <= |s| && IsBoundary(s, k)
    ensures Good(s[..k], bad) && Good(s[k..], bad)
    decreases |s|
  {
    if k == |s| {
      assert s[..k] == s;
    } else if k > 0 {
      var n := CharLen(s[0]);
      BoundaryInTail(s, k);
      GoodCut(s[n..], k - n, bad);
      Slices(s, n, k);
      GoodFirst(s[..n], s[n..][..k - n], bad);
      FrontOfFront(s, n, k);
    }
  }

  lemma {:induction false} AsciiGood(s: seq<byte>, bad: seq<byte> -> bool)
    requires forall i | 0 <= i < |s| :: IsAsciiByte(s[i]) && !bad([s[i]])
    ensures Good(s, bad)
  {
    if s != [] {
      AsciiGood(s[1..], bad);
      assert s[..1] == [s[0]];
    }
  }

  lemma AfterAscii(s: seq<byte>, k: nat)
    requires WellFormed(s) && k < |s| && IsAsciiByte(s[k])
    ensures IsBoundary(s, k + 1)
  {
    CutAfterAscii(s, k);
    assert k + 1 < |s| ==> s[k + 1..][0] == s[k + 1];
  }

  // ----- Replacement -----

  lemma {:induction false} SkipConts(s: seq<byte>, k: nat, pat: seq<byte>, rep: seq<byte>)
    requires pat != [] && IsAsciiByte(pat[0]) && k <= |s| && forall i | 0 <= i < k :: !IsAsciiByte(s[i])
    ensures Replace(s, pat, rep) == s[..k] + Replace(s[k..], pat, rep)
    decreases k
  {
    if k == 0 {
      assert s[0..] == s;
    } else {
      HeadOfFront(s, k);
      if |s| >= |pat| {
        assert s[0] != pat[0];
        SkipConts(s[1..], k - 1, pat, rep);
        Grouped([s[0]], s[1..][..k - 1], Replace(s[k..], pat, rep));
      }
    }
  }

  /** No occurrence of an ASCII pattern starts inside a character. */
  lemma SkipChar(s: seq<byte>, n: nat, pat: seq<byte>, rep: seq<byte>)
    requires pat != [] && IsAsciiByte(pat[0]) && 0 < n <= |s| && !(pat <= s)
    requires forall i | 0 < i < n :: !IsAsciiByte(s[i])
    ensures Replace(s, pat, rep) == s[..n] + Replace(s[n..], pat, rep)
  {
    HeadOfFront(s, n);
    if |s| >= |pat| {
      SkipConts(s[1..], n - 1, pat, rep);
      Grouped([s[0]], s[1..][..n - 1], Replace(s[n..], pat, rep));
    }
  }

  lemma {:induction false} ReplaceGood(s: seq<byte>, pat: seq<byte>, rep: seq<byte>, bad: seq<byte> -> bool)
    requires pat != [] && forall i | 0 <= i < |pat| :: IsAsciiByte(pat[i])
    requires Good(s, bad) && Good(rep, bad)
    ensures Good(Replace(s, pat, rep), bad)
    decreases |s|
  {
    if pat <= s {
      GoodExactly(s, bad);
      assert s[|pat| - 1] == pat[|pat| - 1];
      AfterAscii(s, |pat| - 1);
      GoodCut(s, |pat|, bad);
      ReplaceGood(s[|pat|..], pat, rep, bad);
      GoodJoined(rep, Replace(s[|pat|..], pat, rep), bad);
    } else if s != [] {
      var n := CharLen(s[0]);
      SkipChar(s, n, pat, rep);
      ReplaceGood(s[n..], pat, rep, bad);
      GoodFirst(s[..n], Replace(s[n..], pat, rep), bad);
    }
  }

  // ----- Newlines and the cut -----

  lemma {:induction false} CollapseSkips(s: seq<byte>, n: nat, run: nat)
    requires n <= |s| && forall i | 0 <= i < n :: s[i] != NL
    ensures Collapse(s, run) == s[..n] + Collapse(s[n..], if n == 0 then run else 0)
    decreases n
  {
    if n == 0 {
      assert s[0..] == s;
    } else {
      CollapseSkips(s[1..], n - 1, 0);
      HeadOfFront(s, n);
      Grouped([s[0]], s[1..][..n - 1], Collapse(s[n..], 0));
    }
  }

  lemma {:induction false} CollapseGood(s: seq<byte>, run: nat, bad: seq<byte> -> bool)
    requires Good(s, bad)
    ensures Good(Collapse(s, run), bad)
    decreases |s|
  {
    if s != [] {
      var n := CharLen(s[0]);
      if s[0] == NL {
        CollapseGood(s[1..], run + 1, bad);
        assert s[..1] == [NL];
        GoodFirst([NL], Collapse(s[1..], run + 1), bad);
        assert [] + Collapse(s[1..], run + 1) == Collapse(s[1..], run + 1);
      } else {
        CollapseSkips(s, n, run);
        CollapseGood(s[n..], 0, bad);
        GoodFirst(s[..n], Collapse(s[n..], 0), bad);
      }
    }
  }

  lemma TruncatedGood(s: seq<byte>, bad: seq<byte> -> bool)
    requires Good(s, bad) && Good(Marker(), bad)
    ensures Good(Truncated(s, MAX_OUTPUT_BYTES), bad)
  {
    if |s| > MAX_OUTPUT_BYTES {
      var cut := CutPoint(s, MAX_OUTPUT_BYTES - |Marker()|);
      GoodCut(s, cut, bad);
      GoodJoined(s[..cut], Marker(), bad);
    }
  }

  /** Three newlines in a row can only be the two in front of the truncation marker and its own. */
  lemma TriplesOnlyAtMarker(s: seq<byte>, i: nat)
    requires (forall k: nat :: !TripleAt(s, k)) && TripleAt(Truncated(s, MAX_OUTPUT_BYTES), i)
    ensures i + 2 == |Truncated(s, MAX_OUTPUT_BYTES)| - 15
  {
    MarkerSpelled();
    var t := Truncated(s, MAX_OUTPUT_BYTES);
    var cut := |t| - |Marker()|;
    assert !TripleAt(s, i);
    assert t[..cut] == s[..cut] && t[cut..] == Marker();
    assert forall k | 0 <= k < cut :: t[k] == s[k];
    assert t[cut + 1] == Marker()[1] == '[' as byte;
  }

  // ----- The whole body -----

  lemma DangerousIsNotPlain(b: byte)
    requires 0x20 <= b <= 0x7E || b == NL
    ensures IsAsciiByte(b) && !DangerousChar([b])
  {
  }

  lemma PrintableGood(s: seq<byte>)
    requires forall i | 0 <= i < |s| :: 0x20 <= s[i] <= 0x7E || s[i] == NL
    ensures Good(s, DangerousChar)
  {
    forall i | 0 <= i < |s| ensures IsAsciiByte(s[i]) && !DangerousChar([s[i]]) {
      DangerousIsNotPlain(s[i]);
    }
    AsciiGood(s, DangerousChar);
  }

  predicate Letters(s: seq<byte>) { forall i | 0 <= i < |s| :: 0x20 <= s[i] <= 0x7E }

  lemma TagNameIsLetters()
    ensures Letters(TagName())
  {
  }

  lemma TagsAreLetters()
    ensures Letters(CloseTag()) && Letters(CloseBlocked()) && Letters(OpenTag()) && Letters(OpenBlocked())
  {
    TagNameIsLetters();
    assert Letters(Ascii("_BLOCKED>")) && Letters(Ascii("_BLOCKED")) && Letters(Ascii("/")) && Letters(Ascii(">"));
  }

  lemma NeutralisedGood(s: seq<byte>)
    requires Good(s, DangerousChar)
    ensures Good(Neutralised(s), DangerousChar)
  {
    TagsAreLetters();
    PrintableGood(CloseBlocked());
    PrintableGood(OpenBlocked());
    ReplaceGood(s, CloseTag(), CloseBlocked(), DangerousChar);
    ReplaceGood(Replace(s, CloseTag(), CloseBlocked()), OpenTag(), OpenBlocked(), DangerousChar);
  }

  lemma MarkerGood()
    ensures Good(Marker(), DangerousChar)
  {
    assert Letters(Note());
    PrintableGood(Marker());
  }

  /** The text has no dangerous character. */
  ghost predicate Safe(s: seq<byte>) { WellFormed(s) && forall c | c in Chars(s) :: !DangerousChar(c) }

  lemma SafeIsGood(s: seq<byte>)
    ensures Safe(s) <==> Good(s, DangerousChar)
  {
    GoodExactly(s, DangerousChar);
  }

  lemma PassesKeepSafe(s: seq<byte>)
    requires Safe(s)
    ensures Safe(Truncated(Collapse(Neutralised(s), 0), MAX_OUTPUT_BYTES))
  {
    SafeIsGood(s);
    NeutralisedGood(s);
    CollapseGood(Neutralised(s), 0, DangerousChar);
    MarkerGood();
    TruncatedGood(Collapse(Neutralised(s), 0), DangerousChar);
    SafeIsGood(Truncated(Collapse(Neutralised(s), 0), MAX_OUTPUT_BYTES));
  }

  /** For every tool name and text, and every normalisation that brings no dangerous character into a text without
      any: the body between the two lines of the envelope is at most 8192 bytes long and has no dangerous character,
      and has three newlines in a row at most where the truncation marker starts. */
  lemma OutputIsClean(nfc: seq<byte> -> seq<byte>, tool: seq<byte>, raw: seq<byte>)
    requires WellFormed(tool) && WellFormed(raw) && Sanitized(nfc, tool, raw).Some?
    requires forall t :: Safe(t) ==> Safe(nfc(t))
    ensures exists body: seq<byte> ::
              && Sanitized(nfc, tool, raw).value == TopLine(SafeToolName(tool)) + body + BottomLine()
              && |body| <= 8192 && Safe(body) && forall i: nat | TripleAt(body, i) :: i + 2 == |body| - 15
  {
    StripExact(raw);
    var text := SafeText(Strip(raw).value);
    SafeTextIsSafe(Strip(raw).value);
    assert Safe(text);
    var collapsed := Collapse(Neutralised(nfc(text)), 0);
    var body := Truncated(collapsed, MAX_OUTPUT_BYTES);
    PassesKeepSafe(nfc(text));
    TruncatedIsShort(collapsed);
    CollapseLimitsRuns(Neutralised(nfc(text)), 0);
    forall i: nat | TripleAt(body, i) ensures i + 2 == |body| - 15 {
      TriplesOnlyAtMarker(collapsed, i);
    }
    EnvelopeSpelled(SafeToolName(tool), body);
  }
}
