/** Lines of a text, as `str::lines` cuts them, over any kind of character. */
module TextLines {

  /** The position of the first newline, or the length when there is none. */
  function Break<T(==)>(s: seq<T>, nl: T): (i: nat)
    ensures i <= |s| && (i < |s| ==> s[i] == nl) && forall j | 0 <= j < i :: s[j] != nl
  {
    if s == [] || s[0] == nl then 0 else 1 + Break(s[1..], nl)
  }

  function StripCr<T(==)>(line: seq<T>, cr: T): seq<T> {
    if line != [] && line[|line| - 1] == cr then line[..|line| - 1] else line
  }

  /** A carriage return belongs to the line end only when a newline follows. */
  function Split<T(==)>(s: seq<T>, nl: T, cr: T): seq<seq<T>>
    decreases |s|
  {
    var i := Break(s, nl);
    if s == [] then [] else if i == |s| then [s] else [StripCr(s[..i], cr)] + Split(s[i + 1..], nl, cr)
  }

  predicate Terminated<T(==)>(s: seq<T>, nl: T) { s == [] || s[|s| - 1] == nl }

  lemma BreakOf<T>(a: seq<T>, nl: T, b: seq<T>)
    requires nl !in a
    ensures Break(a + [nl] + b, nl) == |a|
  {
    var s := a + [nl] + b;
    assert s[|a|] == nl && forall j | 0 <= j < |a| :: s[j] == a[j];
  }

  lemma SplitFirst<T>(a: seq<T>, b: seq<T>, nl: T, cr: T)
    requires nl !in a
    ensures Split(a + [nl] + b, nl, cr) == [StripCr(a, cr)] + Split(b, nl, cr)
  {
    BreakOf(a, nl, b);
    var s := a + [nl] + b;
    assert s[..|a|] == a && s[|a| + 1..] == b;
  }

  lemma Cut<T>(t: seq<T>, i: nat, u: seq<T>)
    requires i < |t|
    ensures t == t[..i] + [t[i]] + t[i + 1..] && t + u == t[..i] + [t[i]] + (t[i + 1..] + u)
  {
  }

  lemma AppendStep<T>(a: seq<T>, rest: seq<T>, u: seq<T>, nl: T, cr: T)
    requires nl !in a && Split(rest + u, nl, cr) == Split(rest, nl, cr) + Split(u, nl, cr)
    ensures Split(a + [nl] + (rest + u), nl, cr) == Split(a + [nl] + rest, nl, cr) + Split(u, nl, cr)
  {
    SplitFirst(a, rest, nl, cr);
    SplitFirst(a, rest + u, nl, cr);
    Glue([StripCr(a, cr)], Split(rest, nl, cr), Split(u, nl, cr));
  }

  lemma Glue<T>(h: seq<T>, p: seq<T>, r: seq<T>)
    ensures h + (p + r) == h + p + r
  {
  }

  /** A text that ends its last line can be continued line by line. */
  lemma {:induction false} SplitAppend<T>(t: seq<T>, u: seq<T>, nl: T, cr: T)
    requires Terminated(t, nl)
    ensures Split(t + u, nl, cr) == Split(t, nl, cr) + Split(u, nl, cr)
    decreases |t|
  {
    if t == [] {
      assert t + u == u;
    } else {
      var i := Break(t, nl);
      assert i < |t|;
      Cut(t, i, u);
      SplitAppend(t[i + 1..], u, nl, cr);
      AppendStep(t[..i], t[i + 1..], u, nl, cr);
    }
  }

  lemma SplitOne<T>(line: seq<T>, nl: T, cr: T)
    requires nl !in line
    ensures Split(line + [nl], nl, cr) == [StripCr(line, cr)]
  {
    SplitFirst(line, [], nl, cr);
    assert line + [nl] == line + [nl] + [];
  }

  /** What follows the last newline is a line of its own if it is not empty, and keeps its carriage return. */
  lemma SplitLast<T>(s: seq<T>, nl: T, cr: T)
    requires nl !in s
    ensures Split(s, nl, cr) == if s == [] then [] else [s]
  {
    assert Break(s, nl) == |s|;
  }

  /** No line holds a newline. */
  lemma {:induction false} LinesHoldNone<T>(s: seq<T>, nl: T, cr: T)
    ensures forall i | 0 <= i < |Split(s, nl, cr)| :: nl !in Split(s, nl, cr)[i]
    decreases |s|
  {
    var i := Break(s, nl);
    if i < |s| {
      LinesHoldNone(s[i + 1..], nl, cr);
      assert nl !in s[..i] && nl !in StripCr(s[..i], cr);
    }
  }

  /** Where the text after the last newline starts. */
  function LastLineStart<T(==)>(s: seq<T>, nl: T): (i: nat)
    ensures i <= |s| && Terminated(s[..i], nl) && nl !in s[i..]
  {
    if Terminated(s, nl) then |s|
    else
      var i := LastLineStart(s[..|s| - 1], nl);
      assert s[..|s| - 1][..i] == s[..i];
      assert s[i..] == s[..|s| - 1][i..] + [s[|s| - 1]];
      i
  }
}

