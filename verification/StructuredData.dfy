/** The syslog frame of an audit event and a reader for it after sections 6.2 to 6.4 of RFC 5424. */
module StructuredData {
  import opened Wrappers
  import opened AuditContent
  import DoubleSpace
  import Codes
  import Decimal
  import TextLines

  predicate PrintableAscii(c: char) { 0x20 as char <= c <= 0x7E as char }

  predicate Special(c: char) { c == '"' || c == '\\' || c == ']' }

  function EscapeChar(c: char): string { if Special(c) then ['\\', c] else [c] }

  /** A value without the characters the frame cannot carry. */
  function Kept(value: string): (k: string)
    ensures forall i | 0 <= i < |k| :: PrintableAscii(k[i])
  {
    if value == "" then ""
    else Kept(value[..|value| - 1])
         + if PrintableAscii(value[|value| - 1]) then [value[|value| - 1]] else ""
  }

  function Escaped(value: string): string { Codes.Flat(EscapeChar, Kept(value)) }

  lemma EscapedSnoc(value: string, i: nat)
    requires i < |value|
    ensures Escaped(value[..i + 1])
         == Escaped(value[..i]) + if PrintableAscii(value[i]) then EscapeChar(value[i]) else ""
  {
    assert value[..i + 1][..i] == value[..i];
    if PrintableAscii(value[i]) {
      Codes.FlatSnoc(EscapeChar, Kept(value[..i]), value[i]);
    } else {
      assert Kept(value[..i]) + "" == Kept(value[..i]);
    }
  }

  method SdEscape(value: string) returns (out: string)
    ensures out == Escaped(value)
  {
    out := "";
    for i := 0 to |value|
      invariant out == Escaped(value[..i])
    {
      EscapedSnoc(value, i);
      match value[i] {
        case '"' => out := out + "\\\"";
        case '\\' => out := out + "\\\\";
        case ']' => out := out + "\\]";
        case c =>
          if PrintableAscii(c) {
            out := out + [c];
          }
      }
    }
    assert value[..|value|] == value;
  }

  /** Each character is kept or dropped on its own. */
  lemma {:induction false} KeptSplits(u: string, v: string)
    ensures Kept(u + v) == Kept(u) + Kept(v)
    ensures |u| == 1 ==> Kept(u) == if 32 <= u[0] as int <= 126 then u else ""
    decreases |v|
  {
    if v == "" {
      assert u + v == u;
    } else {
      var n := |v| - 1;
      assert (u + v)[..|u + v| - 1] == u + v[..n] && (u + v)[|u + v| - 1] == v[n];
      KeptSplits(u, v[..n]);
    }
  }

  /** Only what the frame cannot carry is lost. */
  lemma {:induction false} KeptExact(value: string)
    ensures |Kept(value)| <= |value|
    ensures Kept(value) == value <==> forall i | 0 <= i < |value| :: 32 <= value[i] as int <= 126
  {
    if value != "" {
      var v, c := value[..|value| - 1], value[|value| - 1];
      KeptExact(v);
      assert value == v + [c];
      assert Kept(v) == v ==> forall i | 0 <= i < |v| :: PrintableAscii(value[i]);
    }
  }

  datatype Param = Param(name: string, value: string)

  function ParamText(p: Param): string { [' '] + p.name + ['=', '"'] + p.value + ['"'] }

  function ParamTexts(ps: seq<Param>): string {
    if ps == [] then "" else ParamText(ps[0]) + ParamTexts(ps[1..])
  }

  function Element(id: string, ps: seq<Param>): string { ['['] + id + ParamTexts(ps) + [']'] }

  datatype AuditEvent = AuditEvent(
    seqNo: nat, transactionId: string, actionName: string, riskLevel: RiskLevel, summary: string,
    approvalId: Option<string>, createdAt: string, chainHash: string, keyId: string,
    callerRole: Option<string>, finalStatus: Option<string>)

  function RiskText(r: RiskLevel): string {
    match r case Low => "low" case Medium => "medium" case High => "high"
  }

  function OrEmpty(o: Option<string>): string { if o.Some? then o.value else "" }

  /** The parameters with the values they stand for. */
  function Meant(e: AuditEvent): seq<Param> {
    [Param("seq", Decimal.Print(e.seqNo)), Param("tx", e.transactionId), Param("action", e.actionName),
     Param("risk", RiskText(e.riskLevel)), Param("approval", OrEmpty(e.approvalId)),
     Param("role", OrEmpty(e.callerRole)), Param("chain_hash", e.chainHash), Param("key_id", e.keyId)]
    + if e.finalStatus.Some? then [Param("terminal_status", e.finalStatus.value)] else []
  }

  /** The parameters as they are written: number and risk plain, the others escaped. */
  function Written(e: AuditEvent): seq<Param> {
    [Param("seq", Decimal.Print(e.seqNo)), Param("tx", Escaped(e.transactionId)),
     Param("action", Escaped(e.actionName)),
     Param("risk", RiskText(e.riskLevel)), Param("approval", Escaped(OrEmpty(e.approvalId))),
     Param("role", Escaped(OrEmpty(e.callerRole))), Param("chain_hash", Escaped(e.chainHash)),
     Param("key_id", Escaped(e.keyId))]
    + if e.finalStatus.Some? then [Param("terminal_status", Escaped(e.finalStatus.value))] else []
  }

  const SD_ID := "sysknife@32473"

  function Structured(e: AuditEvent): string { Element(SD_ID, Written(e)) }

  function Message(e: AuditEvent): string { ['['] + e.actionName + [']', ' '] + e.summary }

  /** The host name, or the nil value when the kernel's is not a single printable token. */
  function ReadHostname(kernel: string): (h: string)
    ensures IsToken(h) && |h| <= 255
    ensures h == DoubleSpace.Trim(kernel) <==> IsToken(DoubleSpace.Trim(kernel)) && |DoubleSpace.Trim(kernel)| <= 255
  {
    var raw := DoubleSpace.Trim(kernel);
    if raw == "" || |raw| > 255 || exists i | 0 <= i < |raw| :: !('!' <= raw[i] <= '~') then "-" else raw
  }

  /** Section 6: the characters of a header field. */
  predicate PrintUsAscii(c: char) { 33 <= c as int <= 126 }

  /** Section 6.2: a header field is a non-empty run of printable characters without a space. */
  predicate IsToken(s: string) { s != "" && forall i | 0 <= i < |s| :: PrintUsAscii(s[i]) }

  function Priority(facility: nat): nat { facility * 8 + 5 }

  datatype Header = Header(priority: nat, timestamp: string, host: string, app: string, procId: nat, msgId: string)

  function HeaderText(h: Header): string {
    ['<'] + Decimal.Print(h.priority) + ['>', '1'] + [' '] + h.timestamp + [' '] + h.host + [' ']
    + h.app + [' '] + Decimal.Print(h.procId) + [' '] + h.msgId + [' ']
  }

  function EventHeader(e: AuditEvent, facility: nat, hostname: string, pid: nat): Header {
    Header(Priority(facility), e.createdAt, hostname, "sysknife-daemon", pid, "AUDIT")
  }

  function FormatRfc5424(e: AuditEvent, facility: nat, hostname: string, pid: nat): string {
    HeaderText(EventHeader(e, facility, hostname, pid)) + Structured(e) + [' '] + Message(e)
  }

  // ---- Reading, after RFC 5424 ----

  /** Section 6.3.2: the characters of a parameter name. */
  predicate NameChar(c: char) { PrintUsAscii(c) && c != '=' && c != ']' && c != '"' }

  predicate IsName(s: string) { 1 <= |s| <= 32 && forall i | 0 <= i < |s| :: NameChar(s[i]) }

  function NameLength(s: string): (n: nat)
    ensures n <= |s|
  {
    if s == "" || !NameChar(s[0]) then 0 else 1 + NameLength(s[1..])
  }

  datatype Read<T> = Read(value: T, rest: string)

  function ReadName(s: string): Option<Read<string>> {
    var n := NameLength(s);
    if 1 <= n <= 32 then Some(Read(s[..n], s[n..])) else None
  }

  /** Section 6.3.3: a backslash keeps the special character behind it; a bare bracket is malformed. */
  function ReadValue(s: string): (r: Option<Read<string>>)
    ensures r.Some? ==> |r.value.rest| < |s|
  {
    if s == "" || s[0] == ']' then None
    else if s[0] == '"' then Some(Read("", s[1..]))
    else
      var escape := s[0] == '\\' && |s| > 1 && (s[1] == '"' || s[1] == '\\' || s[1] == ']');
      var skip := if escape then 2 else 1;
      match ReadValue(s[skip..])
      case None => None
      case Some(r) => Some(Read([s[skip - 1]] + r.value, r.rest))
  }

  function ReadParam(s: string): (r: Option<Read<Param>>)
    ensures r.Some? ==> |r.value.rest| < |s|
  {
    match ReadName(s)
    case None => None
    case Some(name) =>
      if |name.rest| < 2 || name.rest[0] != '=' || name.rest[1] != '"' then None
      else
        match ReadValue(name.rest[2..])
        case None => None
        case Some(v) => Some(Read(Param(name.value, v.value), v.rest))
  }

  function ReadParams(s: string): Option<Read<seq<Param>>>
    decreases |s|
  {
    if s == "" then None
    else if s[0] == ']' then Some(Read([], s[1..]))
    else if s[0] != ' ' then None
    else
      match ReadParam(s[1..])
      case None => None
      case Some(p) =>
        match ReadParams(p.rest)
        case None => None
        case Some(ps) => Some(Read([p.value] + ps.value, ps.rest))
  }

  datatype SdElement = SdElement(id: string, params: seq<Param>)

  function ReadElement(s: string): Option<Read<SdElement>> {
    if s == "" || s[0] != '[' then None
    else
      match ReadName(s[1..])
      case None => None
      case Some(id) =>
        match ReadParams(id.rest)
        case None => None
        case Some(ps) => Some(Read(SdElement(id.value, ps.value), ps.rest))
  }

  // ---- Values, names and parameters come back ----

  lemma {:induction false} ValueReads(k: string, rest: string)
    ensures ReadValue(Codes.Flat(EscapeChar, k) + ['"'] + rest) == Some(Read(k, rest))
  {
    var s := Codes.Flat(EscapeChar, k) + ['"'] + rest;
    if k == "" {
      assert s[1..] == rest;
    } else {
      var tail := Codes.Flat(EscapeChar, k[1..]) + ['"'] + rest;
      assert s == EscapeChar(k[0]) + tail;
      ValueReads(k[1..], rest);
      assert tail == s[|EscapeChar(k[0])|..];
      assert k == [k[0]] + k[1..];
    }
  }

  lemma {:induction false} NameLengthOf(n: string, rest: string)
    requires forall i | 0 <= i < |n| :: NameChar(n[i])
    requires rest == "" || !NameChar(rest[0])
    ensures NameLength(n + rest) == |n|
  {
    if n == "" {
      assert n + rest == rest;
    } else {
      assert (n + rest)[1..] == n[1..] + rest;
      NameLengthOf(n[1..], rest);
    }
  }

  lemma NameReads(n: string, rest: string)
    requires IsName(n) && (rest == "" || !NameChar(rest[0]))
    ensures ReadName(n + rest) == Some(Read(n, rest))
  {
    NameLengthOf(n, rest);
    assert (n + rest)[..|n|] == n && (n + rest)[|n|..] == rest;
  }

  lemma ParamReads(name: string, k: string, rest: string)
    requires IsName(name)
    ensures ReadParam(name + ['=', '"'] + Codes.Flat(EscapeChar, k) + ['"'] + rest)
         == Some(Read(Param(name, k), rest))
  {
    var after := Codes.Flat(EscapeChar, k) + ['"'] + rest;
    var s := name + ['=', '"'] + Codes.Flat(EscapeChar, k) + ['"'] + rest;
    assert s == name + (['=', '"'] + after);
    NameReads(name, ['=', '"'] + after);
    assert (['=', '"'] + after)[2..] == after;
    ValueReads(k, rest);
  }

  /** A written parameter and the parameter a reader takes it for. */
  predicate Carries(written: Param, value: Param) {
    IsName(written.name) && written.name == value.name
    && written.value == Codes.Flat(EscapeChar, value.value)
  }

  predicate AllCarry(ws: seq<Param>, vs: seq<Param>) {
    |ws| == |vs| && forall i | 0 <= i < |ws| :: Carries(ws[i], vs[i])
  }

  lemma ReadParamsStep(body: string, p: Param, tail: string)
    requires ReadParam(body) == Some(Read(p, tail))
    ensures ReadParams([' '] + body)
         == match ReadParams(tail) case None => None case Some(ps) => Some(Read([p] + ps.value, ps.rest))
  {
    assert ([' '] + body)[1..] == body;
  }

  lemma ParamTextShape(w: Param, t: string)
    ensures ParamText(w) + t == [' '] + (w.name + ['=', '"'] + w.value + ['"'] + t)
  {
  }

  lemma ParamTextsHead(ws: seq<Param>, rest: string)
    requires ws != []
    ensures ParamTexts(ws) + [']'] + rest == ParamText(ws[0]) + (ParamTexts(ws[1..]) + [']'] + rest)
  {
  }

  lemma ParamThenRest(w: Param, v: Param, tail: string)
    requires Carries(w, v)
    ensures ReadParams(ParamText(w) + tail)
         == match ReadParams(tail) case None => None case Some(ps) => Some(Read([v] + ps.value, ps.rest))
  {
    ParamReads(w.name, v.value, tail);
    ParamTextShape(w, tail);
    ReadParamsStep(w.name + ['=', '"'] + w.value + ['"'] + tail, v, tail);
  }

  lemma NoParams(rest: string)
    ensures ReadParams(ParamTexts([]) + [']'] + rest) == Some(Read([], rest))
  {
    assert ParamTexts([]) + [']'] + rest == [']'] + rest && ([']'] + rest)[1..] == rest;
  }

  lemma {:induction false} ParamsRead(ws: seq<Param>, vs: seq<Param>, rest: string)
    requires AllCarry(ws, vs)
    ensures ReadParams(ParamTexts(ws) + [']'] + rest) == Some(Read(vs, rest))
  {
    if ws == [] {
      NoParams(rest);
    } else {
      assert Carries(ws[0], vs[0]);
      ParamsRead(ws[1..], vs[1..], rest);
      ParamTextsHead(ws, rest);
      ParamThenRest(ws[0], vs[0], ParamTexts(ws[1..]) + [']'] + rest);
      assert vs == [vs[0]] + vs[1..];
    }
  }

  lemma ElementReads(id: string, ws: seq<Param>, vs: seq<Param>, rest: string)
    requires IsName(id) && AllCarry(ws, vs)
    ensures ReadElement(Element(id, ws) + rest) == Some(Read(SdElement(id, vs), rest))
  {
    var after := ParamTexts(ws) + [']'] + rest;
    var s := Element(id, ws) + rest;
    assert s == ['['] + (id + after);
    assert s[1..] == id + after;
    assert after[0] == ' ' || after[0] == ']' by { assert ws == [] ==> after == [']'] + rest; }
    NameReads(id, after);
    ParamsRead(ws, vs, rest);
  }

  // ---- The element of an event ----

  lemma {:induction false} PlainIsUnchanged(s: string)
    requires forall i | 0 <= i < |s| :: !Special(s[i])
    ensures Codes.Flat(EscapeChar, s) == s
  {
    if s != "" { PlainIsUnchanged(s[1..]); }
  }

  predicate NoSpecial(s: string) { forall i | 0 <= i < |s| :: PrintableAscii(s[i]) && !Special(s[i]) }

  lemma PlainIsKept(s: string)
    requires NoSpecial(s)
    ensures Kept(s) == s && Codes.Flat(EscapeChar, s) == s
  {
    KeptExact(s);
    PlainIsUnchanged(s);
  }

  /** The parameters a reader of the frame is given. */
  function Delivered(ps: seq<Param>): (ds: seq<Param>)
    ensures |ds| == |ps| && forall i | 0 <= i < |ps| :: ds[i] == Param(ps[i].name, Kept(ps[i].value))
  {
    seq(|ps|, i requires 0 <= i < |ps| => Param(ps[i].name, Kept(ps[i].value)))
  }

  lemma NamesAreNames()
    ensures IsName("seq") && IsName("tx") && IsName("action") && IsName("risk") && IsName("approval")
    ensures IsName("role") && IsName("chain_hash") && IsName("key_id")
  {
  }

  lemma StatusIsAName()
    ensures IsName("terminal_status")
  {
  }

  lemma IdIsAName()
    ensures IsName(SD_ID)
  {
  }

  lemma FixedIs(e: AuditEvent, i: nat)
    requires i < 8
    ensures |Meant(e)| == |Written(e)| >= 8
    ensures Written(e)[i].name == Meant(e)[i].name && IsName(Written(e)[i].name)
    ensures Written(e)[i].value == if i == 0 || i == 3 then Meant(e)[i].value else Escaped(Meant(e)[i].value)
  {
    NamesAreNames();
  }

  lemma StatusIs(e: AuditEvent)
    requires e.finalStatus.Some?
    ensures |Meant(e)| == |Written(e)| == 9
    ensures Written(e)[8].name == Meant(e)[8].name && IsName(Written(e)[8].name)
    ensures Written(e)[8].value == Escaped(Meant(e)[8].value)
  {
    StatusIsAName();
  }

  lemma WrittenIs(e: AuditEvent, i: nat)
    requires i < |Written(e)|
    ensures |Meant(e)| == |Written(e)| && Written(e)[i].name == Meant(e)[i].name && IsName(Written(e)[i].name)
    ensures Written(e)[i].value == if i == 0 || i == 3 then Meant(e)[i].value else Escaped(Meant(e)[i].value)
  {
    if i < 8 { FixedIs(e, i); } else { StatusIs(e); }
  }

  lemma PlainOnes(e: AuditEvent)
    ensures NoSpecial(Meant(e)[0].value) && NoSpecial(Meant(e)[3].value)
  {
    var n := Decimal.Print(e.seqNo);
    assert forall i | 0 <= i < |n| :: Decimal.IsDigit(n[i]);
  }

  lemma WrittenCarries(e: AuditEvent)
    ensures AllCarry(Written(e), Delivered(Meant(e)))
  {
    var ws, ms := Written(e), Meant(e);
    PlainOnes(e);
    forall i | 0 <= i < |ws| ensures Carries(ws[i], Delivered(ms)[i]) {
      WrittenIs(e, i);
      OneCarries(ws[i], ms[i], i == 0 || i == 3);
    }
  }

  lemma OneCarries(w: Param, m: Param, plain: bool)
    requires IsName(w.name) && w.name == m.name && (plain ==> NoSpecial(m.value))
    requires w.value == if plain then m.value else Escaped(m.value)
    ensures Carries(w, Param(m.name, Kept(m.value)))
  {
    if plain { PlainIsKept(m.value); }
  }

  /** A reader finds the element's own closing bracket and every parameter, less what the frame cannot carry,
      whatever the values contain and whatever follows. */
  lemma StructuredReadsBack(e: AuditEvent, rest: string)
    ensures ReadElement(Structured(e) + rest) == Some(Read(SdElement(SD_ID, Delivered(Meant(e))), rest))
  {
    WrittenCarries(e);
    IdIsAName();
    ElementReads(SD_ID, Written(e), Delivered(Meant(e)), rest);
  }

  predicate AllPrintable(ps: seq<Param>) {
    forall i | 0 <= i < |ps| :: forall j | 0 <= j < |ps[i].value| :: PrintableAscii(ps[i].value[j])
  }

  /** The values come back unchanged exactly when all of them are printable ASCII. */
  lemma PrintableEventsSurvive(e: AuditEvent, rest: string)
    ensures ReadElement(Structured(e) + rest) == Some(Read(SdElement(SD_ID, Meant(e)), rest))
            <==> AllPrintable(Meant(e))
  {
    StructuredReadsBack(e, rest);
    DeliveredExact(Meant(e));
  }

  lemma DeliveredExact(ps: seq<Param>)
    ensures Delivered(ps) == ps <==> AllPrintable(ps)
  {
    forall i | 0 <= i < |ps|
      ensures Delivered(ps)[i] == ps[i] <==> forall j | 0 <= j < |ps[i].value| :: PrintableAscii(ps[i].value[j])
    {
      KeptExact(ps[i].value);
    }
    assert AllPrintable(ps) ==> forall i | 0 <= i < |ps| :: Delivered(ps)[i] == ps[i];
  }

  // ---- The whole frame ----

  function Tokens(h: Header): seq<string> {
    [['<'] + Decimal.Print(h.priority) + ['>', '1'], h.timestamp, h.host, h.app, Decimal.Print(h.procId), h.msgId]
  }

  function TokenTexts(ts: seq<string>): string {
    if ts == [] then "" else ts[0] + [' '] + TokenTexts(ts[1..])
  }

  function ReadTokens(s: string, n: nat): (r: Option<Read<seq<string>>>)
    ensures r.Some? ==> |r.value.value| == n && forall i | 0 <= i < n :: IsToken(r.value.value[i])
    decreases n
  {
    if n == 0 then Some(Read([], s))
    else
      var i := TextLines.Break(s, ' ');
      if i == |s| || !IsToken(s[..i]) then None
      else
        match ReadTokens(s[i + 1..], n - 1)
        case None => None
        case Some(r) => Some(Read([s[..i]] + r.value, r.rest))
  }

  datatype SyslogFrame = SyslogFrame(header: seq<string>, element: SdElement, message: string)

  /** Section 6: six tokens, one element, and the free text behind a space. */
  function ReadFrame(s: string): Option<SyslogFrame> {
    match ReadTokens(s, 6)
    case None => None
    case Some(h) =>
      match ReadElement(h.rest)
      case None => None
      case Some(el) =>
        if el.rest == "" || el.rest[0] != ' ' then None else Some(SyslogFrame(h.value, el.value, el.rest[1..]))
  }

  lemma ReadTokensStep(t: string, tail: string, n: nat)
    requires IsToken(t)
    ensures ReadTokens(t + [' '] + tail, n + 1)
         == match ReadTokens(tail, n) case None => None case Some(r) => Some(Read([t] + r.value, r.rest))
  {
    var s := t + [' '] + tail;
    assert ' ' !in t;
    TextLines.BreakOf(t, ' ', tail);
    assert s[..|t|] == t && s[|t| + 1..] == tail;
  }

  lemma TokenTextsHead(ts: seq<string>, rest: string)
    requires ts != []
    ensures TokenTexts(ts) + rest == ts[0] + [' '] + (TokenTexts(ts[1..]) + rest) && ts == [ts[0]] + ts[1..]
  {
  }

  lemma {:induction false} TokensRead(ts: seq<string>, rest: string)
    requires forall i | 0 <= i < |ts| :: IsToken(ts[i])
    ensures ReadTokens(TokenTexts(ts) + rest, |ts|) == Some(Read(ts, rest))
  {
    if ts == [] {
      assert TokenTexts(ts) + rest == rest;
    } else {
      TokenTextsHead(ts, rest);
      TokensRead(ts[1..], rest);
      ReadTokensStep(ts[0], TokenTexts(ts[1..]) + rest, |ts| - 1);
    }
  }

  lemma SixTokens(a: string, b: string, c: string, d: string, e: string, f: string)
    ensures TokenTexts([a, b, c, d, e, f])
         == a + [' '] + b + [' '] + c + [' '] + d + [' '] + e + [' '] + f + [' ']
  {
    TokenCons(a, [b, c, d, e, f]);
    TokenCons(b, [c, d, e, f]);
    TokenCons(c, [d, e, f]);
    TokenCons(d, [e, f]);
    TokenCons(e, [f]);
    TokenCons(f, []);
  }

  lemma TokenCons(t: string, ts: seq<string>)
    ensures TokenTexts([t] + ts) == t + [' '] + TokenTexts(ts)
  {
    assert ([t] + ts)[1..] == ts;
  }

  lemma HeaderIsTokens(h: Header)
    ensures HeaderText(h) == TokenTexts(Tokens(h))
  {
    SixTokens(['<'] + Decimal.Print(h.priority) + ['>', '1'],
              h.timestamp, h.host, h.app, Decimal.Print(h.procId), h.msgId);
  }

  lemma DigitsAreToken(n: nat)
    ensures IsToken(Decimal.Print(n)) && IsToken(['<'] + Decimal.Print(n) + ['>', '1'])
  {
    assert forall i | 0 <= i < |Decimal.Print(n)| :: Decimal.IsDigit(Decimal.Print(n)[i]);
  }

  lemma HeaderTokensPlain(e: AuditEvent, facility: nat, kernel: string, pid: nat)
    ensures var ts := Tokens(EventHeader(e, facility, ReadHostname(kernel), pid));
            (forall i | 0 <= i < |ts| :: IsToken(ts[i])) <==> IsToken(e.createdAt)
  {
    DigitsAreToken(Priority(facility));
    DigitsAreToken(pid);
    var ts := Tokens(EventHeader(e, facility, ReadHostname(kernel), pid));
    assert ts[1] == e.createdAt;
    assert forall i | 0 <= i < |ts| && i != 1 :: IsToken(ts[i]);
  }

  lemma FrameShape(e: AuditEvent, facility: nat, hostname: string, pid: nat)
    ensures FormatRfc5424(e, facility, hostname, pid)
         == TokenTexts(Tokens(EventHeader(e, facility, hostname, pid)))
            + (Structured(e) + ([' '] + Message(e)))
  {
    HeaderIsTokens(EventHeader(e, facility, hostname, pid));
  }

  /** The whole frame is read as it was meant, for any event text and any kernel host name,
      exactly when the time stamp is a non-empty printable token. */
  lemma FrameReadsBack(e: AuditEvent, facility: nat, kernel: string, pid: nat)
    ensures var h := EventHeader(e, facility, ReadHostname(kernel), pid);
            ReadFrame(FormatRfc5424(e, facility, ReadHostname(kernel), pid))
              == Some(SyslogFrame(Tokens(h), SdElement(SD_ID, Delivered(Meant(e))), Message(e)))
            <==> IsToken(e.createdAt)
  {
    var host := ReadHostname(kernel);
    var ts := Tokens(EventHeader(e, facility, host, pid));
    HeaderTokensPlain(e, facility, kernel, pid);
    if IsToken(e.createdAt) {
      var rest := [' '] + Message(e);
      FrameShape(e, facility, host, pid);
      TokensRead(ts, Structured(e) + rest);
      StructuredReadsBack(e, rest);
      assert rest[1..] == Message(e);
    }
  }

  // ---- What the frame says ----

  /** The digits stand for the number. */
  predicate Denotes(digits: string, n: nat) { digits != "" && Decimal.AllDigits(digits) && Decimal.Value(digits) == n }

  lemma PrintDenotes(n: nat)
    ensures Denotes(Decimal.Print(n), n)
  {
    Decimal.ValueOfPrint(n);
  }

  predicate HeaderSays(h: seq<string>, e: AuditEvent, facility: nat, kernel: string, pid: nat) {
    && |h| == 6
    && |h[0]| > 3 && h[0][0] == '<' && Denotes(h[0][1..|h[0]| - 2], 8 * facility + 5) && h[0][|h[0]| - 2..] == ">1"
    && h[1] == e.createdAt && h[2] == ReadHostname(kernel) && h[3] == "sysknife-daemon"
    && Denotes(h[4], pid) && h[5] == "AUDIT"
  }

  lemma HeaderOf(e: AuditEvent, facility: nat, kernel: string, pid: nat)
    ensures HeaderSays(Tokens(EventHeader(e, facility, ReadHostname(kernel), pid)), e, facility, kernel, pid)
  {
    var h := Tokens(EventHeader(e, facility, ReadHostname(kernel), pid));
    PrintDenotes(Priority(facility));
    PrintDenotes(pid);
    assert h[0][1..|h[0]| - 2] == Decimal.Print(Priority(facility)) && h[0][|h[0]| - 2..] == ">1";
  }

  predicate ParamsSay(ps: seq<Param>, e: AuditEvent) {
    && |ps| == (if e.finalStatus.Some? then 9 else 8)
    && ps[0].name == "seq" && Denotes(ps[0].value, e.seqNo)
    && ps[1] == Param("tx", Kept(e.transactionId))
    && ps[2] == Param("action", Kept(e.actionName))
    && ps[3] == Param("risk", match e.riskLevel case Low => "low" case Medium => "medium" case High => "high")
    && ps[4] == Param("approval", Kept(if e.approvalId.Some? then e.approvalId.value else ""))
    && ps[5] == Param("role", Kept(if e.callerRole.Some? then e.callerRole.value else ""))
    && ps[6] == Param("chain_hash", Kept(e.chainHash))
    && ps[7] == Param("key_id", Kept(e.keyId))
    && (e.finalStatus.Some? ==> ps[8] == Param("terminal_status", Kept(e.finalStatus.value)))
  }

  lemma RiskIsKept(r: RiskLevel)
    ensures Kept(RiskText(r)) == RiskText(r)
  {
    KeptExact(RiskText(r));
  }

  lemma NumberIsKept(n: nat)
    ensures Kept(Decimal.Print(n)) == Decimal.Print(n)
  {
    KeptExact(Decimal.Print(n));
    assert forall i | 0 <= i < |Decimal.Print(n)| :: Decimal.IsDigit(Decimal.Print(n)[i]);
  }

  lemma FixedParams(e: AuditEvent, ps: seq<Param>)
    requires |ps| == |Meant(e)|
    requires forall i | 0 <= i < |ps| :: ps[i] == Param(Meant(e)[i].name, Kept(Meant(e)[i].value))
    ensures ps[0] == Param("seq", Kept(Decimal.Print(e.seqNo))) && ps[1] == Param("tx", Kept(e.transactionId))
    ensures ps[2] == Param("action", Kept(e.actionName)) && ps[3] == Param("risk", Kept(RiskText(e.riskLevel)))
    ensures ps[4] == Param("approval", Kept(OrEmpty(e.approvalId)))
    ensures ps[5] == Param("role", Kept(OrEmpty(e.callerRole)))
    ensures ps[6] == Param("chain_hash", Kept(e.chainHash)) && ps[7] == Param("key_id", Kept(e.keyId))
    ensures e.finalStatus.Some? ==> ps[8] == Param("terminal_status", Kept(e.finalStatus.value))
  {
  }

  lemma ParamsOf(e: AuditEvent)
    ensures ParamsSay(Delivered(Meant(e)), e)
  {
    var ps := Delivered(Meant(e));
    RiskIsKept(e.riskLevel);
    NumberIsKept(e.seqNo);
    PrintDenotes(e.seqNo);
    FixedParams(e, ps);
  }

  /** What a reader learns from a frame: facility and severity in the priority, the time, the host, the program, its
      process and the kind of message in the header; number, transaction, action, risk, approval, role, chain hash, key
      and final status each under its own name, less what is not printable ASCII; and the action and the summary,
      whatever they hold, in the free text. */
  lemma FrameSays(e: AuditEvent, facility: nat, kernel: string, pid: nat)
    requires IsToken(e.createdAt)
    ensures var r := ReadFrame(FormatRfc5424(e, facility, ReadHostname(kernel), pid));
            && r.Some?
            && HeaderSays(r.value.header, e, facility, kernel, pid)
            && r.value.element.id == "sysknife@32473" && ParamsSay(r.value.element.params, e)
            && r.value.message == "[" + e.actionName + "] " + e.summary
  {
    FrameReadsBack(e, facility, kernel, pid);
    HeaderOf(e, facility, kernel, pid);
    ParamsOf(e);
  }
}
