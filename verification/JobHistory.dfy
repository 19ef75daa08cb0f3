/** The history listing the daemon prints and the command line reads back. */
module JobHistory {
  import opened Wrappers
  import opened AuditContent
  import opened Jobs
  import opened DoubleSpace
  import Decimal
  import TextLines

  const TRANSACTION_ID_DISPLAY_PREFIX_LEN := 8

  datatype Record = Record(transactionId: string, actionName: string, status: JobState, summary: string)

  datatype HistoryEntry = HistoryEntry(transactionId: string, action: string, status: string, summary: string)

  function Label(s: JobState): (l: string)
    ensures Tight(l) && ' ' !in l && '\n' !in l && |l| < 12
  {
    match s
    case Queued => "queued"
    case Running => "running"
    case Succeeded => "succeeded"
    case Failed => "failed"
    case Canceled => "canceled"
    case RolledBack => "rolledback"
    case NeedsReboot => "needsreboot"
  }

  function Padded(s: string, width: nat): string {
    s + Spaces(if |s| < width then width - |s| else 0)
  }

  function Prefix(s: string, n: nat): string { if |s| <= n then s else s[..n] }

  function Row(r: Record): string {
    Spaces(2) + Prefix(r.transactionId, TRANSACTION_ID_DISPLAY_PREFIX_LEN)
    + Spaces(2) + Padded(r.actionName, 30)
    + Spaces(2) + Padded(Label(r.status), 12)
    + Spaces(2) + r.summary
  }

  function Rows(rs: seq<Record>): string {
    if rs == [] then "" else Rows(rs[..|rs| - 1]) + (Row(rs[|rs| - 1]) + ['\n'])
  }

  const TITLE := "Transaction history"

  function Header(n: nat): string { TITLE + " (" + Decimal.Print(n) + " entries):" }

  const NOTHING := "No transactions found"

  /** The first line of a listing, or the only line of an empty one. */
  predicate IsHeading(s: string) { TITLE <= s || NOTHING <= s }

  lemma HeadingHasNoSpace(s: string)
    requires |s| > 8 && s[8] == ' '
    ensures !IsHeading(s)
  {
    assert TITLE[8] == 'i' && NOTHING[8] == 'a';
  }

  function Listing(rs: seq<Record>): string {
    if rs == [] then NOTHING + "." else Header(|rs|) + ['\n'] + ['\n'] + Rows(rs)
  }

  lemma RowsSnoc(rs: seq<Record>, i: nat, header: string)
    requires i < |rs|
    ensures header + Rows(rs[..i + 1]) == header + Rows(rs[..i]) + (Row(rs[i]) + ['\n'])
  {
    assert rs[..i + 1][..i] == rs[..i];
  }

  method FormatJobHistory(records: seq<Record>) returns (output: string)
    ensures output == Listing(records)
  {
    if |records| == 0 {
      return NOTHING + ".";
    }
    output := Header(|records|) + ['\n'] + ['\n'];
    ghost var header := output;
    assert header + Rows(records[..0]) == header;
    for i := 0 to |records|
      invariant output == header + Rows(records[..i])
    {
      RowsSnoc(records, i, header);
      output := output + (Row(records[i]) + ['\n']);
    }
    assert records[..|records|] == records;
  }

  /** What one line contributes to the entries. */
  function ParseLine(line: string): Option<HistoryEntry> {
    var trimmed := TrimStart(line);
    if trimmed == "" || IsHeading(trimmed) then None
    else
      var parts := Pieces(trimmed);
      if |parts| < 4 then None
      else Some(HistoryEntry(Trim(parts[0]), Trim(parts[1]), Trim(parts[2]), Trim(Join(parts[3..]))))
  }

  /** The lines that contribute nothing. */
  lemma SkippedExactly(line: string)
    ensures var t := TrimStart(line);
            ParseLine(line).None? <==>
              t == "" || "Transaction history" <= t || "No transactions found" <= t || |Pieces(t)| < 4
  {
  }

  function ParseLines(lines: seq<string>): (es: seq<HistoryEntry>)
    ensures |es| <= |lines|
  {
    if lines == [] then []
    else
      var before := ParseLines(lines[..|lines| - 1]);
      match ParseLine(lines[|lines| - 1])
      case None => before
      case Some(e) => before + [e]
  }

  function Lines(text: string): seq<string> { TextLines.Split(text, '\n', '\r') }

  function Parsed(raw: string): seq<HistoryEntry> { ParseLines(Lines(raw)) }

  lemma ParseSnoc(lines: seq<string>, i: nat)
    requires i < |lines|
    ensures ParseLines(lines[..i + 1]) == ParseLines(lines[..i]) + OneOrNone(ParseLine(lines[i]))
  {
    assert lines[..i + 1][..i] == lines[..i];
  }

  function OneOrNone(e: Option<HistoryEntry>): seq<HistoryEntry> {
    match e case None => [] case Some(entry) => [entry]
  }

  method ParseHistoryText(raw: string) returns (entries: seq<HistoryEntry>)
    ensures entries == Parsed(raw)
  {
    entries := [];
    var lines := Lines(raw);
    for i := 0 to |lines|
      invariant entries == ParseLines(lines[..i])
    {
      ParseSnoc(lines, i);
      var trimmed := TrimStart(lines[i]);
      var skipped := trimmed == "" || IsHeading(trimmed);
      if skipped {
        continue;
      }
      var parts := Pieces(trimmed);
      if |parts| < 4 {
        continue;
      }
      entries := entries + [HistoryEntry(Trim(parts[0]), Trim(parts[1]), Trim(parts[2]), Trim(Join(parts[3..])))];
    }
    assert lines[..|lines|] == lines;
  }

  /** A column value that keeps clear of the padding. */
  ghost predicate Column(s: string) { Tight(s) && !HasRun(s, 2) && '\n' !in s }

  /** Records as the daemon stores them: a long identifier and a plain action name. */
  ghost predicate Printable(r: Record) {
    && |r.transactionId| >= TRANSACTION_ID_DISPLAY_PREFIX_LEN
    && Column(Prefix(r.transactionId, TRANSACTION_ID_DISPLAY_PREFIX_LEN))
    && Column(r.actionName)
  }

  predicate SingleLine(r: Record) { '\n' !in r.summary }

  function Entry(r: Record): HistoryEntry {
    HistoryEntry(Prefix(r.transactionId, TRANSACTION_ID_DISPLAY_PREFIX_LEN), r.actionName, Label(r.status), r.summary)
  }

  function Entries(rs: seq<Record>): seq<HistoryEntry> {
    seq(|rs|, i requires 0 <= i < |rs| => Entry(rs[i]))
  }

  /** The summaries that come back as they were. An empty one does only behind an odd run of padding. */
  ghost predicate Survives(r: Record) {
    if r.summary == "" then |Label(r.status)| % 2 == 1
    else SingleLine(r) && Tight(r.summary) && !HasRun(r.summary, 4)
  }

  lemma LeadMakesNoRun(w: string)
    requires Tight(w) && !HasRun(w, 2)
    ensures !HasRun([' '] + w, 2)
  {
    var v := [' '] + w;
    assert v[1..] == w;
    forall i: nat ensures !RunAt(v, i, 2) {
      if i == 0 { assert v[1] == w[0]; } else { RunShift(v, 1, i - 1, 2); }
    }
  }

  lemma ColumnWithLead(w: string, lead: nat, t: string)
    requires Tight(w) && !HasRun(w, 2) && lead < 2
    ensures var v := Spaces(lead) + w; Pieces(v + Spaces(2) + t) == [v] + Pieces(t) && Trim(v) == w
  {
    var v := Spaces(lead) + w;
    TrimTight(w);
    LeadMakesNoRun(w);
    assert v == if lead == 0 then w else [' '] + w;
    FirstPiece(v, t);
  }

  /** A column behind a run of padding: its word, with the leftover space, is the next piece. */
  lemma NextColumn(n: nat, w: string, m: nat, t: string)
    requires Tight(w) && !HasRun(w, 2) && m >= 2
    ensures var ps := Pieces(Spaces(n) + (w + Spaces(m) + t));
            |ps| > 0 && Trim(ps[0]) == w && ps[1..] == Pieces(Spaces(m - 2) + t)
  {
    var rest := w + Spaces(m) + t;
    SpacesCollapse(n, rest);
    assert Spaces(m) == Spaces(2) + Spaces(m - 2);
    assert Spaces(n % 2) + rest == (Spaces(n % 2) + w) + Spaces(2) + (Spaces(m - 2) + t);
    ColumnWithLead(w, n % 2, Spaces(m - 2) + t);
  }

  /** Three columns and a rest, each behind its own padding. */
  lemma ThreeColumns(id: string, a: string, m: nat, l: string, n: nat, s: string)
    requires Tight(id) && Tight(a) && Tight(l) && m >= 2 && n >= 2
    requires !HasRun(id, 2) && !HasRun(a, 2) && !HasRun(l, 2)
    ensures var ps := Pieces(id + Spaces(2) + (a + Spaces(m) + (l + Spaces(n) + s)));
            |ps| >= 3 && Trim(ps[0]) == id && Trim(ps[1]) == a && Trim(ps[2]) == l
            && ps[3..] == Pieces(Spaces(n - 2) + s)
  {
    var t2 := l + Spaces(n) + s;
    var t1 := a + Spaces(m) + t2;
    var ps := Pieces(id + Spaces(2) + t1);
    NextColumn(0, id, 2, t1);
    assert Spaces(0) + (id + Spaces(2) + t1) == id + Spaces(2) + t1;
    NextColumn(0, a, m, t2);
    NextColumn(m - 2, l, n, s);
    ThirdOf(ps, Pieces(Spaces(0) + t1), Pieces(Spaces(m - 2) + t2));
  }

  lemma ThirdOf(p: seq<string>, q: seq<string>, r: seq<string>)
    requires |p| > 0 && p[1..] == q && |q| > 0 && q[1..] == r && |r| > 0
    ensures |p| >= 3 && p[1] == q[0] && p[2] == r[0] && p[3..] == r[1..]
  {
    assert p[2] == q[1];
    assert p[3..] == p[1..][1..][1..];
  }

  function Width(s: string, width: nat): (n: nat)
    ensures n >= 2
  {
    2 + if |s| < width then width - |s| else 0
  }

  lemma PadShape(s: string, width: nat)
    ensures Padded(s, width) + Spaces(2) == s + Spaces(Width(s, width))
  {
    assert Spaces(Width(s, width)) == Spaces(Width(s, width) - 2) + Spaces(2);
  }

  /** A row without its indentation. */
  function Body(r: Record): string {
    Prefix(r.transactionId, TRANSACTION_ID_DISPLAY_PREFIX_LEN) + Spaces(2)
    + (r.actionName + Spaces(Width(r.actionName, 30))
       + (Label(r.status) + Spaces(Width(Label(r.status), 12)) + r.summary))
  }

  lemma Regroup(p: string, id: string, g: string, a: string, a': string, l: string, l': string, s: string)
    requires a + g == a' && l + g == l'
    ensures p + id + g + a + g + l + g + s == p + (id + g + (a' + (l' + s)))
  {
    assert p + id + g + a + g + l + g + s == p + (id + g + ((a + g) + ((l + g) + s)));
  }

  lemma RowShape(r: Record)
    ensures Row(r) == Spaces(2) + Body(r)
  {
    var a, l := r.actionName, Label(r.status);
    PadShape(a, 30);
    PadShape(l, 12);
    Regroup(Spaces(2), Prefix(r.transactionId, TRANSACTION_ID_DISPLAY_PREFIX_LEN), Spaces(2),
            Padded(a, 30), a + Spaces(Width(a, 30)), Padded(l, 12), l + Spaces(Width(l, 12)), r.summary);
  }

  lemma TrimStartPadding(t: string)
    requires t != "" && !IsSpace(t[0])
    ensures TrimStart(Spaces(2) + t) == t
  {
    var s := Spaces(2) + t;
    assert s[1..][1..] == t;
    assert TrimStart(s[1..]) == TrimStart(t);
  }

  lemma TrimmedRow(r: Record)
    requires Printable(r)
    ensures TrimStart(Row(r)) == Body(r)
  {
    RowShape(r);
    var id := Prefix(r.transactionId, TRANSACTION_ID_DISPLAY_PREFIX_LEN);
    assert Body(r)[0] == id[0];
    TrimStartPadding(Body(r));
  }

  lemma LabelHasNoRun(s: JobState)
    ensures !HasRun(Label(s), 2)
  {
    forall i: nat ensures !RunAt(Label(s), i, 2) {
      assert i < |Label(s)| ==> Label(s)[i] in Label(s);
    }
  }

  /** The pieces of a printed row. */
  lemma RowPieces(r: Record)
    requires Printable(r)
    ensures var ps := Pieces(Body(r));
            |ps| >= 3 && Trim(ps[0]) == Entry(r).transactionId && Trim(ps[1]) == r.actionName
            && Trim(ps[2]) == Label(r.status)
            && ps[3..] == Pieces(Spaces(Width(Label(r.status), 12) - 2) + r.summary)
  {
    LabelHasNoRun(r.status);
    ThreeColumns(Entry(r).transactionId, r.actionName, Width(r.actionName, 30),
                 Label(r.status), Width(Label(r.status), 12), r.summary);
  }

  /** What stands before the rows. */
  lemma ListingOpens(rs: seq<Record>)
    ensures rs == [] ==> Listing(rs) == "No transactions found" + "."
    ensures rs != [] ==>
              Listing(rs) == "Transaction history" + " (" + Decimal.Print(|rs|) + " entries):" + "\n" + "\n" + Rows(rs)
  {
  }

  lemma EightPieces(a: string, b: string, c: string, d: string, e: string, f: string, g: string, h: string)
    requires |a| == |c| == |e| == |g| == 2 && |b| == 8 && |d| == 30 && |f| == 12
    ensures var s := a + b + c + d + e + f + g + h;
            && s[..2] == a && s[2..10] == b && s[10..12] == c && s[12..42] == d
            && s[42..44] == e && s[44..56] == f && s[56..58] == g && s[58..] == h
  {
  }

  /** The columns of a listing stand below one another: identifier, action, status and summary start at the offsets
      2, 12, 44 and 58 of every row whose action has at most 30 characters, with spaces between them. */
  lemma RowColumns(r: Record)
    requires |r.transactionId| >= 8 && |r.actionName| <= 30
    ensures var row, l := Row(r), Label(r.status);
            && |row| == 58 + |r.summary|
            && row[..2] == Spaces(2) && row[2..10] == r.transactionId[..8]
            && row[10..12] == Spaces(2) && row[12..42] == r.actionName + Spaces(30 - |r.actionName|)
            && row[42..44] == Spaces(2) && row[44..56] == l + Spaces(12 - |l|)
            && row[56..58] == Spaces(2) && row[58..] == r.summary
  {
    EightPieces(Spaces(2), Prefix(r.transactionId, TRANSACTION_ID_DISPLAY_PREFIX_LEN), Spaces(2),
                Padded(r.actionName, 30), Spaces(2), Padded(Label(r.status), 12), Spaces(2), r.summary);
  }

  /** A printed row is never taken for a header or for the empty listing. */
  lemma RowIsNoHeader(r: Record)
    requires Printable(r)
    ensures Body(r) != "" && !IsHeading(Body(r))
  {
    var id := Prefix(r.transactionId, TRANSACTION_ID_DISPLAY_PREFIX_LEN);
    assert Body(r)[|id|] == Spaces(2)[0];
    HeadingHasNoSpace(Body(r));
  }

  lemma LineExact(line: string, e: HistoryEntry, padding: nat)
    requires padding >= 2 && TrimStart(line) != "" && !IsHeading(TrimStart(line))
    requires var ps := Pieces(TrimStart(line));
             |ps| >= 3 && Trim(ps[0]) == e.transactionId && Trim(ps[1]) == e.action && Trim(ps[2]) == e.status
             && ps[3..] == Pieces(Spaces(padding - 2) + e.summary)
    ensures ParseLine(line) == Some(e) <==>
            if e.summary == "" then padding % 2 == 1 else Tight(e.summary) && !HasRun(e.summary, 4)
  {
    Recovered(padding, e.summary);
    var ps := Pieces(TrimStart(line));
    assert |ps| < 4 <==> ps[3..] == [];
  }

  lemma RowExact(r: Record)
    requires Printable(r) && SingleLine(r)
    ensures ParseLine(Row(r)) == Some(Entry(r)) <==> Survives(r)
  {
    TrimmedRow(r);
    RowPieces(r);
    RowIsNoHeader(r);
    WidthParity(Label(r.status));
    LineExact(Row(r), Entry(r), Width(Label(r.status), 12));
  }

  lemma WidthParity(l: string)
    requires |l| < 12
    ensures Width(l, 12) % 2 == |l| % 2
  {
  }

  lemma NoNewlineInRow(r: Record)
    requires Printable(r) && SingleLine(r)
    ensures '\n' !in Row(r)
  {
    var l := Label(r.status);
    assert '\n' !in Padded(l, 12) && '\n' !in Padded(r.actionName, 30);
  }

  lemma RowEnd(r: Record)
    ensures var row := Row(r);
            |row| > 0
            && (row[|row| - 1] == '\r' ==> r.summary != "" && r.summary[|r.summary| - 1] == '\r')
  {
    var row, s := Row(r), r.summary;
    assert s == "" ==> row[|row| - 1] == Spaces(2)[1];
    assert s != "" ==> row[|row| - 1] == s[|s| - 1];
  }

  /** The carriage return a line end swallows could only have come from the summary's own end. */
  lemma RowKeepsItsEnd(r: Record)
    requires Printable(r) && SingleLine(r)
    ensures ParseLine(TextLines.StripCr(Row(r), '\r')) == Some(Entry(r)) <==> Survives(r)
  {
    RowExact(r);
    RowEnd(r);
    EndsOfEntry(TextLines.StripCr(Row(r), '\r'));
  }

  /** No entry's summary ends in white space. */
  lemma EndsOfEntry(line: string)
    ensures var e := ParseLine(line); e.Some? ==> e.value.summary == "" || Tight(e.value.summary)
  {
  }

  lemma {:induction false} ParseAppend(a: seq<string>, b: seq<string>)
    ensures ParseLines(a + b) == ParseLines(a) + ParseLines(b)
  {
    if b == [] {
      assert a + b == a;
    } else {
      assert (a + b)[..|a + b| - 1] == a + b[..|b| - 1];
      ParseAppend(a, b[..|b| - 1]);
    }
  }

  lemma {:induction false} RowsTerminated(rs: seq<Record>)
    ensures TextLines.Terminated(Rows(rs), '\n')
  {
  }

  lemma HeaderIsSkipped(n: nat)
    ensures var h := Header(n);
            '\n' !in h && TextLines.StripCr(h, '\r') == h && ParseLine(h) == None
  {
    var h := Header(n);
    assert forall i | 0 <= i < |Decimal.Print(n)| :: Decimal.IsDigit(Decimal.Print(n)[i]);
    assert h[|h| - 1] == ':';
    assert h[..|TITLE|] == TITLE;
    assert h[0] == 'T' && TrimStart(h) == h;
  }

  lemma SnocLines(t: string, line: string)
    requires TextLines.Terminated(t, '\n') && '\n' !in line
    ensures Parsed(t + (line + ['\n'])) == Parsed(t) + ParseLines([TextLines.StripCr(line, '\r')])
  {
    TextLines.SplitAppend(t, line + ['\n'], '\n', '\r');
    TextLines.SplitOne(line, '\n', '\r');
    ParseAppend(Lines(t), [TextLines.StripCr(line, '\r')]);
  }

  lemma ParseOne(line: string)
    ensures ParseLines([line]) == match ParseLine(line) case None => [] case Some(e) => [e]
  {
    assert [line][..0] == [];
  }

  lemma SnocRows(before: seq<Record>, r: Record) returns (b: seq<HistoryEntry>)
    requires Printable(r) && SingleLine(r)
    ensures Parsed(Rows(before + [r])) == Parsed(Rows(before)) + b
    ensures |b| <= 1 && (b == [Entry(r)] <==> Survives(r))
  {
    var line := TextLines.StripCr(Row(r), '\r');
    b := ParseLines([line]);
    assert (before + [r])[..|before|] == before;
    RowsTerminated(before);
    NoNewlineInRow(r);
    SnocLines(Rows(before), Row(r));
    ParseOne(line);
    RowKeepsItsEnd(r);
  }

  ghost predicate AllPrintable(rs: seq<Record>) { forall i | 0 <= i < |rs| :: Printable(rs[i]) }

  predicate AllSingleLine(rs: seq<Record>) { forall i | 0 <= i < |rs| :: SingleLine(rs[i]) }

  ghost predicate AllSurvive(rs: seq<Record>) { forall i | 0 <= i < |rs| :: Survives(rs[i]) }

  lemma AllSnoc(before: seq<Record>, r: Record)
    ensures AllPrintable(before + [r]) <==> AllPrintable(before) && Printable(r)
    ensures AllSingleLine(before + [r]) <==> AllSingleLine(before) && SingleLine(r)
    ensures AllSurvive(before + [r]) <==> AllSurvive(before) && Survives(r)
    ensures Entries(before + [r]) == Entries(before) + [Entry(r)]
  {
    var rs := before + [r];
    assert rs[|before|] == r && forall i | 0 <= i < |before| :: rs[i] == before[i];
  }

  lemma {:induction false} RowsExact(rs: seq<Record>)
    requires AllPrintable(rs) && AllSingleLine(rs)
    ensures |Parsed(Rows(rs))| <= |rs|
    ensures Parsed(Rows(rs)) == Entries(rs) <==> AllSurvive(rs)
  {
    if rs == [] {
      assert Rows(rs) == "" && Lines("") == [];
    } else {
      var before, r := rs[..|rs| - 1], rs[|rs| - 1];
      assert rs == before + [r];
      AllSnoc(before, r);
      RowsExact(before);
      var b := SnocRows(before, r);
      LastOf(Parsed(Rows(before)), b, Entries(before), Entry(r));
    }
  }

  /** Lists of which neither can be too long are equal only part by part. */
  lemma LastOf(a: seq<HistoryEntry>, b: seq<HistoryEntry>, c: seq<HistoryEntry>, e: HistoryEntry)
    requires |a| <= |c| && |b| <= 1
    ensures a + b == c + [e] <==> a == c && b == [e]
  {
    if a + b == c + [e] {
      assert |a| == |c|;
      assert a == (a + b)[..|a|] == (c + [e])[..|c|] == c;
      assert b == (a + b)[|a|..] == (c + [e])[|c|..] == [e];
    }
  }

  lemma HeadingAlone(s: string)
    requires s != "" && '\n' !in s && !IsSpace(s[0]) && IsHeading(s)
    ensures Parsed(s) == []
  {
    assert Lines(s) == [s];
    ParseOne(s);
  }

  lemma EmptyListing()
    ensures Parsed(Listing([])) == []
  {
    assert '\n' !in NOTHING && NOTHING[0] == 'N';
    HeadingAlone(NOTHING + ".");
  }

  lemma HeaderLines(h: string, rows: string)
    requires '\n' !in h && TextLines.StripCr(h, '\r') == h && ParseLine(h) == None
    ensures Parsed(h + ['\n'] + ['\n'] + rows) == Parsed(rows)
  {
    var e: string := "";
    TextLines.SplitOne(h, '\n', '\r');
    TextLines.SplitOne(e, '\n', '\r');
    assert e + ['\n'] == ['\n'];
    TextLines.SplitAppend(h + ['\n'], ['\n'], '\n', '\r');
    TextLines.SplitAppend(h + ['\n'] + ['\n'], rows, '\n', '\r');
    ParseAppend([h] + [e], Lines(rows));
    ParseAppend([h], [e]);
    ParseOne(h);
    ParseOne(e);
  }

  // ----- A line feed never comes back -----

  lemma {:induction false} TrimStartHoldsNone(s: string, c: char)
    requires c !in s
    ensures c !in TrimStart(s)
  {
    if s != "" && IsSpace(s[0]) { TrimStartHoldsNone(s[1..], c); }
  }

  lemma {:induction false} PiecesHoldNone(s: string, c: char)
    requires c !in s
    ensures forall i | 0 <= i < |Pieces(s)| :: c !in Pieces(s)[i]
    decreases |s|
  {
    var i := Gap(s);
    if i < |s| { PiecesHoldNone(s[i + 2..], c); }
  }

  lemma {:induction false} JoinHoldsNone(ps: seq<string>, c: char)
    requires c != ' ' && forall i | 0 <= i < |ps| :: c !in ps[i]
    ensures c !in Join(ps)
  {
    if |ps| > 1 {
      JoinHoldsNone(ps[1..], c);
      assert c !in ps[0] && c !in Spaces(2);
    }
  }

  lemma TrimHoldsNone(s: string, c: char)
    requires c !in s
    ensures c !in Trim(s)
  {
    TrimStartHoldsNone(s, c);
    assert forall x | x in TrimEnd(TrimStart(s)) :: x in TrimStart(s);
  }

  lemma EntryHoldsNoNewline(line: string)
    requires '\n' !in line
    ensures var e := ParseLine(line); e.Some? ==> '\n' !in e.value.summary
  {
    var ps := Pieces(TrimStart(line));
    TrimStartHoldsNone(line, '\n');
    PiecesHoldNone(TrimStart(line), '\n');
    if |ps| >= 4 {
      JoinHoldsNone(ps[3..], '\n');
      TrimHoldsNone(Join(ps[3..]), '\n');
    }
  }

  lemma {:induction false} EntriesHoldNoNewline(lines: seq<string>)
    requires forall i | 0 <= i < |lines| :: '\n' !in lines[i]
    ensures forall i | 0 <= i < |ParseLines(lines)| :: '\n' !in ParseLines(lines)[i].summary
  {
    if lines != [] {
      EntriesHoldNoNewline(lines[..|lines| - 1]);
      EntryHoldsNoNewline(lines[|lines| - 1]);
    }
  }

  lemma NewlineIsLost(raw: string, rs: seq<Record>)
    requires !AllSingleLine(rs)
    ensures Parsed(raw) != Entries(rs)
  {
    TextLines.LinesHoldNone(raw, '\n', '\r');
    EntriesHoldNoNewline(Lines(raw));
    var i :| 0 <= i < |rs| && !SingleLine(rs[i]);
    assert Entries(rs)[i].summary == rs[i].summary;
  }

  lemma SurvivorsAreSingleLine(rs: seq<Record>)
    requires AllSurvive(rs)
    ensures AllSingleLine(rs)
  {
    assert forall i | 0 <= i < |rs| :: Survives(rs[i]) ==> SingleLine(rs[i]);
  }

  /** Reading a printed listing gives every transaction back, in order, exactly when every
      summary survives. */
  lemma ListingReadsBack(rs: seq<Record>)
    requires AllPrintable(rs)
    ensures Parsed(Listing(rs)) == Entries(rs) <==> AllSurvive(rs)
  {
    if rs == [] {
      EmptyListing();
    } else if AllSingleLine(rs) {
      HeaderIsSkipped(|rs|);
      HeaderLines(Header(|rs|), Rows(rs));
      RowsExact(rs);
    } else {
      NewlineIsLost(Listing(rs), rs);
      if AllSurvive(rs) { SurvivorsAreSingleLine(rs); }
    }
  }

  // ----- The summaries the daemon writes -----

  function RiskName(r: RiskLevel): (name: string)
    ensures Tight(name) && ' ' !in name && '\n' !in name
  {
    match r case Low => "low-risk" case Medium => "medium-risk" case High => "high-risk"
  }

  function PreviewSummary(action: string, risk: RiskLevel): string {
    action + [' '] + "preview" + [' '] + (['('] + RiskName(risk) + [')'])
  }

  /** Words with single spaces between them have no double space. */
  lemma OneSpaceBetween(a: string, b: string)
    requires !HasRun(a, 2) && !HasRun(b, 2) && a != "" && a[|a| - 1] != ' ' && b != "" && b[0] != ' '
    ensures !HasRun(a + [' '] + b, 2)
  {
    var s := a + [' '] + b;
    forall i: nat ensures !RunAt(s, i, 2) {
      if i + 1 < |a| {
        assert !RunAt(a, i, 2) && s[i] == a[i] && s[i + 1] == a[i + 1];
      } else if i + 1 == |a| {
        assert s[i] == a[i];
      } else if i == |a| {
        assert i + 1 < |s| && s[i + 1] == b[0];
      } else {
        RunShift(s, |a| + 1, i - (|a| + 1), 2);
        assert s[|a| + 1..] == b;
      }
    }
  }

  lemma RunShorter(s: string, i: nat)
    ensures RunAt(s, i, 4) ==> RunAt(s, i, 2)
  {
  }

  lemma FewerSpaces(s: string)
    requires !HasRun(s, 2)
    ensures !HasRun(s, 4)
  {
    forall i: nat ensures !RunAt(s, i, 4) {
      RunShorter(s, i);
    }
  }

  lemma ColumnsJoin(a: string, b: string)
    requires Column(a) && Column(b)
    ensures Column(a + [' '] + b)
  {
    OneSpaceBetween(a, b);
  }

  lemma RiskIsAColumn(risk: RiskLevel)
    ensures Column(['('] + RiskName(risk) + [')'])
  {
    NoSpaceNoRun(['('] + RiskName(risk) + [')']);
  }

  lemma WordIsAColumn()
    ensures Column("preview")
  {
    NoSpaceNoRun("preview");
  }

  lemma SummaryWords(action: string, word: string, last: string, s: string)
    requires Column(action) && Column(word) && Column(last)
    requires s == action + [' '] + word + [' '] + last
    ensures Column(s)
  {
    ColumnsJoin(action, word);
    ColumnsJoin(action + [' '] + word, last);
  }

  /** The summary of a preview always survives, so none of the daemon's own rows is lost. */
  lemma PreviewSummarySurvives(r: Record, risk: RiskLevel)
    requires Printable(r) && r.summary == PreviewSummary(r.actionName, risk)
    ensures Survives(r)
  {
    WordIsAColumn();
    RiskIsAColumn(risk);
    SummaryWords(r.actionName, "preview", ['('] + RiskName(risk) + [')'], r.summary);
    FewerSpaces(r.summary);
  }

  lemma NoSpaceNoRun(s: string)
    requires ' ' !in s
    ensures !HasRun(s, 2)
  {
    forall i: nat ensures !RunAt(s, i, 2) {
      assert i < |s| ==> s[i] in s;
    }
  }

  function Example(status: JobState, summary: string): Record { Record("12345678", "Action", status, summary) }

  lemma ExampleIsPrintable(status: JobState, summary: string)
    ensures Printable(Example(status, summary)) && AllPrintable([Example(status, summary)])
  {
    NoSpaceNoRun("12345678");
    NoSpaceNoRun("Action");
  }

  /** One printable record whose listing does not read back unless its summary survives. */
  lemma ExampleReadsBack(status: JobState, summary: string)
    ensures var r := Example(status, summary); Parsed(Listing([r])) == Entries([r]) <==> Survives(r)
  {
    var r := Example(status, summary);
    ExampleIsPrintable(status, summary);
    ListingReadsBack([r]);
    assert AllSurvive([r]) <==> Survives([r][0]);
  }

  lemma FourSpacesDoNotSurvive(r: Record)
    requires r.summary == "a    b"
    ensures !Survives(r)
  {
    assert RunAt(r.summary, 1, 4);
  }

  /** A witness: a summary with four spaces is lost. */
  lemma FourSpacesAreLost()
    ensures var r := Example(Queued, "a    b"); Parsed(Listing([r])) != Entries([r])
  {
    var r := Example(Queued, "a    b");
    FourSpacesDoNotSurvive(r);
    ExampleReadsBack(Queued, r.summary);
  }

  /** A witness: a summary with a line feed is lost. */
  lemma LineFeedIsLost()
    ensures var r := Example(Queued, "a\nb"); Parsed(Listing([r])) != Entries([r])
  {
    var r := Example(Queued, "a\nb");
    assert !SingleLine([r][0]) by { assert r.summary[1] == '\n'; }
    NewlineIsLost(Listing([r]), [r]);
  }

  lemma EmptySurvives(r: Record)
    requires r.summary == ""
    ensures Survives(r) <==> r.status.Running? || r.status.Succeeded? || r.status.NeedsReboot?
  {
  }

  /** Witnesses: an empty summary comes back for three of the seven states and is lost for the others. */
  lemma EmptySummaryDependsOnStatus(status: JobState)
    ensures var r := Example(status, "");
            Parsed(Listing([r])) == Entries([r]) <==> status.Running? || status.Succeeded? || status.NeedsReboot?
  {
    var r := Example(status, "");
    EmptySurvives(r);
    ExampleReadsBack(status, r.summary);
  }
}
