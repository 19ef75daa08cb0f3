/** Texts padded with spaces, and what splitting them at double spaces gives back. */
module DoubleSpace {

  predicate IsSpace(c: char) {
    9 as char <= c <= 13 as char || c == ' ' || c == 0x85 as char || c == 0xA0 as char || c == 0x1680 as char
    || 0x2000 as char <= c <= 0x200A as char || c == 0x2028 as char || c == 0x2029 as char
    || c == 0x202F as char || c == 0x205F as char || c == 0x3000 as char
  }

  function TrimStart(s: string): (t: string)
    ensures |t| <= |s| && (t == "" || !IsSpace(t[0]))
  {
    if s != "" && IsSpace(s[0]) then TrimStart(s[1..]) else s
  }

  function TrimEnd(s: string): (t: string)
    ensures t <= s && (t == "" || !IsSpace(t[|t| - 1]))
  {
    if s != "" && IsSpace(s[|s| - 1]) then TrimEnd(s[..|s| - 1]) else s
  }

  function Trim(s: string): (t: string)
    ensures |t| <= |s| && (t == "" || (!IsSpace(t[0]) && !IsSpace(t[|t| - 1])))
  {
    TrimEnd(TrimStart(s))
  }

  function Spaces(n: nat): (s: string)
    ensures |s| == n && forall i | 0 <= i < n :: s[i] == ' '
  {
    seq(n, _ => ' ')
  }

  /** No white space at either end. */
  predicate Tight(s: string) { s != "" && !IsSpace(s[0]) && !IsSpace(s[|s| - 1]) }

  /** `n` spaces in a row from position `i` on. */
  predicate RunAt(s: string, i: nat, n: nat) {
    i + n <= |s| && forall k | i <= k < i + n :: s[k] == ' '
  }

  ghost predicate HasRun(s: string, n: nat) { exists i: nat :: RunAt(s, i, n) }

  /** The start of the first double space, or the length when there is none. */
  function Gap(s: string): (i: nat)
    ensures i == |s| || RunAt(s, i, 2)
    ensures forall j: nat | j < i :: !RunAt(s, j, 2)
  {
    if s == "" then 0
    else if RunAt(s, 0, 2) then 0
    else
      var i := Gap(s[1..]);
      assert forall j: nat | 0 < j < i + 1 :: RunAt(s, j, 2) ==> RunAt(s[1..], j - 1, 2);
      assert i < |s| - 1 ==> RunAt(s[1..], i, 2) && RunAt(s, i + 1, 2);
      i + 1
  }

  /** `split("  ")` without its empty pieces. */
  function Pieces(s: string): (ps: seq<string>)
    ensures forall i | 0 <= i < |ps| :: ps[i] != ""
    decreases |s|
  {
    var i := Gap(s);
    (if i == 0 then [] else [s[..i]]) + (if i == |s| then [] else Pieces(s[i + 2..]))
  }

  function Join(ps: seq<string>): string {
    if ps == [] then "" else if |ps| == 1 then ps[0] else ps[0] + Spaces(2) + Join(ps[1..])
  }

  function Squeeze(s: string): string { Join(Pieces(s)) }

  lemma GapIs(s: string, i: nat)
    requires i == |s| || RunAt(s, i, 2)
    requires forall j: nat | j < i :: !RunAt(s, j, 2)
    ensures Gap(s) == i
  {
    var g := Gap(s);
    assert g == |s| || RunAt(s, g, 2);
  }

  /** A word without a double space is the first piece of the text it opens. */
  lemma FirstPiece(w: string, t: string)
    requires w != "" && w[|w| - 1] != ' ' && !HasRun(w, 2)
    ensures Pieces(w + Spaces(2) + t) == [w] + Pieces(t)
  {
    var s := w + Spaces(2) + t;
    forall j: nat | j < |w| ensures !RunAt(s, j, 2) {
      assert !RunAt(w, j, 2);
      assert s[j] == w[j];
      assert j + 1 < |w| ==> s[j + 1] == w[j + 1];
    }
    GapIs(s, |w|);
    assert s[..|w|] == w && s[|w| + 2..] == t;
  }

  lemma LeadingGap(t: string)
    ensures Pieces(Spaces(2) + t) == Pieces(t)
  {
    var s := Spaces(2) + t;
    GapIs(s, 0);
    assert s[2..] == t;
  }

  lemma {:induction false} DropPairs(k: nat, t: string)
    ensures Pieces(Spaces(2 * k) + t) == Pieces(t)
    decreases k
  {
    if k == 0 {
      assert Spaces(0) + t == t;
    } else {
      var u := Spaces(2 * (k - 1)) + t;
      assert Spaces(2 * k) + t == Spaces(2) + u;
      LeadingGap(u);
      DropPairs(k - 1, t);
    }
  }

  /** Of a run of spaces only its parity is left. */
  lemma SpacesCollapse(n: nat, t: string)
    ensures Pieces(Spaces(n) + t) == Pieces(Spaces(n % 2) + t)
  {
    DropPairs(n / 2, Spaces(n % 2) + t);
    assert Spaces(n) + t == Spaces(2 * (n / 2)) + (Spaces(n % 2) + t);
  }

  lemma JoinPair(p: string, ps: seq<string>)
    ensures Join([p] + ps) == if ps == [] then p else p + Spaces(2) + Join(ps)
  {
    assert ([p] + ps)[1..] == ps;
  }

  lemma {:induction false} SqueezeShrinks(s: string)
    ensures |Squeeze(s)| <= |s|
    decreases |s|
  {
    var i := Gap(s);
    if i < |s| {
      var rest := Pieces(s[i + 2..]);
      SqueezeShrinks(s[i + 2..]);
      JoinPair(s[..i], rest);
      assert i == 0 ==> Pieces(s) == rest;
    }
  }

  /** At most one leading space. */
  predicate ShortLead(s: string) { s != "" && !RunAt(s, 0, 2) && s[|s| - 1] != ' ' }

  lemma RunShift(s: string, k: nat, i: nat, n: nat)
    requires k <= |s|
    ensures RunAt(s[k..], i, n) <==> RunAt(s, k + i, n)
  {
    assert RunAt(s, k + i, n) ==> forall j | i <= j < i + n :: s[k..][j] == s[k + j];
    if RunAt(s[k..], i, n) {
      forall j | k + i <= j < k + i + n ensures s[j] == ' ' {
        assert s[j] == s[k..][j - k];
      }
    }
  }

  lemma RunCovers(s: string, i: nat, j: nat)
    requires RunAt(s, i, 4) && !RunAt(s, j, 2)
    ensures j < i || i + 2 < j
  {
  }

  /** The text behind the first gap has four spaces in a row whenever the whole has. */
  lemma RunPastGap(s: string)
    requires HasRun(s, 4) && Gap(s) < |s| && ShortLead(s[Gap(s) + 2..])
    ensures HasRun(s[Gap(s) + 2..], 4)
  {
    var g := Gap(s);
    var i: nat :| RunAt(s, i, 4);
    assert RunAt(s, i, 2) && i >= g;
    RunShift(s, g + 2, 0, 2);
    RunCovers(s, i, g + 2);
    RunShift(s, g + 2, i - (g + 2), 4);
  }

  lemma RunInTail(s: string, k: nat, n: nat)
    requires k <= |s| && HasRun(s[k..], n)
    ensures HasRun(s, n)
  {
    var i: nat :| RunAt(s[k..], i, n);
    RunShift(s, k, i, n);
  }

  lemma NoGapNoRun(s: string)
    requires Gap(s) == |s|
    ensures !HasRun(s, 4)
  {
    forall i: nat ensures !RunAt(s, i, 4) {
      assert RunAt(s, i, 4) ==> RunAt(s, i, 2);
    }
  }

  lemma ShortLeadPieces(s: string)
    requires ShortLead(s)
    ensures Gap(s) > 0 && Pieces(s) != [] && Pieces(s)[0] == s[..Gap(s)]
  {
  }

  /** Splitting and joining again gives the text back exactly when no four spaces stand in a row. */
  lemma {:induction false} SqueezeExact(s: string)
    requires ShortLead(s)
    ensures if HasRun(s, 4) then |Squeeze(s)| < |s| else Squeeze(s) == s
    decreases |s|
  {
    var i := Gap(s);
    ShortLeadPieces(s);
    if i == |s| {
      assert s[..i] == s;
      NoGapNoRun(s);
    } else {
      assert i + 2 < |s| by { assert s[i + 1] == ' '; }
      var r := s[i + 2..];
      JoinPair(s[..i], Pieces(r));
      assert s == s[..i] + Spaces(2) + r;
      if ShortLead(r) {
        SqueezeExact(r);
        ShortLeadPieces(r);
        if HasRun(s, 4) { RunPastGap(s); }
        if HasRun(r, 4) { RunInTail(s, i + 2, 4); }
      } else {
        LongGap(s);
      }
    }
  }

  /** A gap of four spaces or more loses some. */
  lemma LongGap(s: string)
    requires Gap(s) + 2 < |s| && RunAt(s[Gap(s) + 2..], 0, 2)
    ensures HasRun(s, 4) && |Squeeze(s)| < |s|
  {
    var i := Gap(s);
    var r := s[i + 2..];
    RunShift(s, i + 2, 0, 2);
    assert RunAt(s, i, 4);
    GapIs(r, 0);
    assert Pieces(r) == Pieces(r[2..]);
    SqueezeShrinks(r[2..]);
    JoinPair(s[..i], Pieces(r));
    assert i == 0 ==> Pieces(s) == Pieces(r);
  }

  lemma GapLead(s: string)
    requires s != "" && s[0] != ' '
    ensures Gap([' '] + s) == Gap(s) + 1 && Gap(s) > 0
  {
    var t, i := [' '] + s, Gap(s);
    assert t[1..] == s;
    forall j: nat | j < i + 1 ensures !RunAt(t, j, 2) {
      if j > 0 { RunShift(t, 1, j - 1, 2); } else { assert t[1] == s[0]; }
    }
    RunShift(t, 1, i, 2);
    GapIs(t, i + 1);
  }

  /** A leading space stays in front of the first piece. */
  lemma SqueezeLead(s: string)
    requires s != "" && s[0] != ' '
    ensures Pieces([' '] + s) != [] && Squeeze([' '] + s) == [' '] + Squeeze(s)
  {
    var t, i := [' '] + s, Gap(s);
    GapLead(s);
    assert t[..i + 1] == [' '] + s[..i];
    var rest := if i == |s| then [] else Pieces(s[i + 2..]);
    assert i < |s| ==> t[i + 3..] == s[i + 2..];
    LeadJoins(s[..i], rest);
  }

  lemma LeadJoins(p: string, rest: seq<string>)
    ensures Join([[' '] + p] + rest) == [' '] + Join([p] + rest)
  {
    JoinPair(p, rest);
    JoinPair([' '] + p, rest);
  }

  lemma TrimTight(s: string)
    requires Tight(s)
    ensures Trim(s) == s && Trim([' '] + s) == s
  {
    assert ([' '] + s)[1..] == s;
    assert TrimStart([' '] + s) == TrimStart(s) == s;
  }

  lemma TrimLead(s: string)
    ensures Trim([' '] + s) == Trim(s)
  {
    assert ([' '] + s)[1..] == s;
    assert TrimStart([' '] + s) == TrimStart(s);
  }

  lemma TightRecovered(s: string)
    requires Tight(s)
    ensures Pieces(s) != [] && (Trim(Squeeze(s)) == s <==> !HasRun(s, 4))
  {
    SqueezeExact(s);
    ShortLeadPieces(s);
    TrimTight(s);
  }

  lemma LeadTrimmed(s: string)
    requires Tight(s)
    ensures Pieces([' '] + s) != [] && Trim(Squeeze([' '] + s)) == Trim(Squeeze(s))
  {
    SqueezeLead(s);
    TrimLead(Squeeze(s));
  }

  /** A tight text behind at most one space is recovered exactly when it has no run of four spaces. */
  lemma RecoveredTight(lead: nat, s: string)
    requires lead < 2 && Tight(s)
    ensures var t := Spaces(lead) + s; Pieces(t) != [] && (Trim(Squeeze(t)) == s <==> !HasRun(s, 4))
  {
    LeadIs(lead, s);
    TightRecovered(s);
    LeadTrimmed(s);
  }

  lemma LeadIs(lead: nat, s: string)
    requires lead < 2
    ensures Spaces(lead) + s == if lead == 0 then s else [' '] + s
  {
  }

  lemma RecoveredEmpty(lead: nat)
    requires lead < 2
    ensures var ps := Pieces(Spaces(lead)); if lead == 0 then ps == [] else ps != [] && Trim(Join(ps)) == ""
  {
    var s := Spaces(lead);
    GapIs(s, lead);
    assert lead == 1 ==> s[..lead] == s && s[1..] == "";
    assert lead == 1 ==> Pieces(s) == [s];
    assert lead == 1 ==> Join([s]) == s;
    assert lead == 1 ==> TrimStart(s) == TrimStart(s[1..]);
  }

  lemma RecoveredFrom(lead: nat, s: string, ps: seq<string>)
    requires lead < 2 && ps == Pieces(Spaces(lead) + s)
    ensures (ps != [] && Trim(Join(ps)) == s) <==> if s == "" then lead == 1 else Tight(s) && !HasRun(s, 4)
  {
    if s == "" {
      RecoveredEmpty(lead);
      assert Spaces(lead) + s == Spaces(lead);
    } else if Tight(s) {
      RecoveredTight(lead, s);
    }
  }

  /** What comes back of a text that follows at least two spaces, taken apart at double spaces and trimmed. */
  lemma Recovered(n: nat, s: string)
    requires n >= 2
    ensures var ps := Pieces(Spaces(n - 2) + s);
            (ps != [] && Trim(Join(ps)) == s) <==> if s == "" then n % 2 == 1 else Tight(s) && !HasRun(s, 4)
  {
    SpacesCollapse(n - 2, s);
    RecoveredFrom((n - 2) % 2, s, Pieces(Spaces(n - 2) + s));
  }
}
