/** A reader for the canonical bytes of an audit row, as a forensic tool would be written from the description
    of the format: tag, 0x1E, value, 0x1F; inside a value `\\`, `\0`, `\1E` and `\1F` stand for the bytes 0x5C,
    0x00, 0x1E and 0x1F. It shares no constant with the encoder. */
module AuditReader {
  import opened Wrappers
  import opened Bytes
  import opened AuditContent
  import Codes
  import Decimal

  /** What was read, and what follows it. */
  datatype Cut = Cut(text: seq<byte>, rest: seq<byte>)

  /** Everything before the first 0x1E. */
  function ReadTag(s: seq<byte>): Option<Cut> {
    if s == [] then None
    else if s[0] == 0x1E then Some(Cut([], s[1..]))
    else
      match ReadTag(s[1..])
      case None => None
      case Some(cut) => Some(Cut([s[0]] + cut.text, cut.rest))
  }

  /** The byte that an escape stands for, and how long the escape is. */
  function ReadEscape(s: seq<byte>): Option<(byte, nat)> {
    if |s| >= 2 && s[..2] == [0x5C, 0x5C] then Some((0x5C, 2))
    else if |s| >= 2 && s[..2] == [0x5C, 0x30] then Some((0x00, 2))
    else if |s| >= 3 && s[..3] == [0x5C, 0x31, 0x45] then Some((0x1E, 3))
    else if |s| >= 3 && s[..3] == [0x5C, 0x31, 0x46] then Some((0x1F, 3))
    else None
  }

  /** Everything before the first bare 0x1F, without escapes; bare 0x00 and 0x1E are refused. */
  function ReadValue(s: seq<byte>): Option<Cut>
    decreases |s|
  {
    if s == [] || s[0] == 0x00 || s[0] == 0x1E then None
    else if s[0] == 0x1F then Some(Cut([], s[1..]))
    else if s[0] == 0x5C then
      match ReadEscape(s)
      case None => None
      case Some((b, n)) => Prepended(b, ReadValue(s[n..]))
    else Prepended(s[0], ReadValue(s[1..]))
  }

  function Prepended(b: byte, r: Option<Cut>): Option<Cut> {
    match r
    case None => None
    case Some(cut) => Some(Cut([b] + cut.text, cut.rest))
  }

  function ReadFields(s: seq<byte>): Option<seq<Field>>
    decreases |s|
  {
    if s == [] then Some([])
    else
      match ReadTag(s)
      case None => None
      case Some(tag) =>
        match ReadValue(tag.rest)
        case None => None
        case Some(value) =>
          if |value.rest| >= |s| then None
          else
            match ReadFields(value.rest)
            case None => None
            case Some(fields) => Some([Field(tag.text, value.text)] + fields)
  }

  predicate PlainTag(tag: seq<byte>) {
    forall i | 0 <= i < |tag| :: tag[i] != 0x1E
  }

  lemma {:induction false} TagReads(tag: seq<byte>, p: seq<byte>)
    requires PlainTag(tag)
    ensures ReadTag(tag + [0x1E] + p) == Some(Cut(tag, p))
  {
    var s := tag + [0x1E] + p;
    if tag == [] {
      assert s[1..] == p;
    } else {
      assert s[0] == tag[0] && s[1..] == tag[1..] + [0x1E] + p;
      TagReads(tag[1..], p);
      assert [tag[0]] + tag[1..] == tag;
    }
  }

  lemma EscapeReads(b: byte, p: seq<byte>)
    ensures ReadValue(EscapeByte(b) + p) == Prepended(b, ReadValue(p))
  {
    var e := EscapeByte(b);
    var s := e + p;
    assert s[|e|..] == p && s[..|e|] == e && s[0] == e[0];
    if |e| == 3 {
      assert s[..2] == e[..2] == [0x5C, 0x31];
      assert s[..2][1] == 0x31;
    }
  }

  lemma {:induction false} ValueReads(v: seq<byte>, p: seq<byte>)
    ensures ReadValue(Codes.Flat(EscapeByte, v) + [0x1F] + p) == Some(Cut(v, p))
  {
    if v == [] {
      assert (Codes.Flat(EscapeByte, v) + [0x1F] + p)[1..] == p;
    } else {
      var s := Codes.Flat(EscapeByte, v[1..]) + [0x1F] + p;
      assert Codes.Flat(EscapeByte, v) + [0x1F] + p == EscapeByte(v[0]) + s;
      ValueReads(v[1..], p);
      EscapeReads(v[0], s);
      assert [v[0]] + v[1..] == v;
    }
  }

  lemma FieldReads(f: Field, fs: seq<Field>)
    requires PlainTag(f.tag)
    requires ReadFields(Codes.Flat(FieldBytes, fs)) == Some(fs)
    ensures ReadFields(Codes.Flat(FieldBytes, [f] + fs)) == Some([f] + fs)
  {
    var rest := Codes.Flat(FieldBytes, fs);
    var value := Codes.Flat(EscapeByte, f.value) + [0x1F] + rest;
    assert ([f] + fs)[1..] == fs;
    assert Codes.Flat(FieldBytes, [f] + fs) == f.tag + [0x1E] + value;
    TagReads(f.tag, value);
    ValueReads(f.value, rest);
  }

  /** Whatever the values hold, the fields come back, each value under its own tag. */
  lemma {:induction false} FieldsRead(fs: seq<Field>)
    requires forall i | 0 <= i < |fs| :: PlainTag(fs[i].tag)
    ensures ReadFields(Codes.Flat(FieldBytes, fs)) == Some(fs)
  {
    if fs != [] {
      FieldsRead(fs[1..]);
      FieldReads(fs[0], fs[1..]);
      assert [fs[0]] + fs[1..] == fs;
    }
  }

  lemma ShortTagsArePlain()
    ensures PlainTag(Ascii("seq")) && PlainTag(Ascii("key_id")) && PlainTag(Ascii("summary"))
    ensures PlainTag(Ascii("risk_level")) && PlainTag(Ascii("created_at"))
  {
  }

  lemma RequestTagsArePlain()
    ensures PlainTag(Ascii("request_id")) && PlainTag(Ascii("request_hash")) && PlainTag(Ascii("action_name"))
  {
  }

  lemma LongTagsArePlain()
    ensures PlainTag(Ascii("transaction_id")) && PlainTag(Ascii("approval_id")) && PlainTag(Ascii("warnings_json"))
  {
  }

  lemma TagsArePlain(c: ChainContent)
    ensures forall i | 0 <= i < |Fields(c)| :: PlainTag(Fields(c)[i].tag)
  {
    ShortTagsArePlain();
    RequestTagsArePlain();
    LongTagsArePlain();
  }

  function RiskWord(r: RiskLevel): string {
    match r
    case Low => "low"
    case Medium => "medium"
    case High => "high"
  }

  /** The bytes are the letters of the word. */
  predicate Spells(tag: seq<byte>, word: string) {
    |tag| == |word| && forall i | 0 <= i < |tag| :: tag[i] as int == word[i] as int
  }

  /** For every row: reading its canonical bytes gives eleven fields, in this order and under these tags - the
      number in decimal without leading zeros, the risk as a word, an absent approval as an empty text, and all
      other values byte for byte, whatever bytes they hold. */
  lemma CanonicalReads(c: ChainContent)
    ensures ReadFields(Canonical(c)).Some?
    ensures var fs := ReadFields(Canonical(c)).value;
            && |fs| == 11
            && Spells(fs[0].tag, "seq") && Decimal.Read(fs[0].value) == Some(c.seqNo)
            && (fs[0].value[0] == 0x30 ==> c.seqNo == 0 && |fs[0].value| == 1)
            && Spells(fs[1].tag, "key_id") && fs[1].value == c.keyId
            && Spells(fs[2].tag, "transaction_id") && fs[2].value == c.transactionId
            && Spells(fs[3].tag, "request_id") && fs[3].value == c.requestId
            && Spells(fs[4].tag, "request_hash") && fs[4].value == c.requestHash
            && Spells(fs[5].tag, "action_name") && fs[5].value == c.actionName
            && Spells(fs[6].tag, "risk_level") && Spells(fs[6].value, RiskWord(c.riskLevel))
            && Spells(fs[7].tag, "summary") && fs[7].value == c.summary
            && Spells(fs[8].tag, "approval_id")
            && fs[8].value == (if c.approvalId.Some? then c.approvalId.value else [])
            && Spells(fs[9].tag, "warnings_json") && fs[9].value == c.warningsJson
            && Spells(fs[10].tag, "created_at") && fs[10].value == c.createdAt
  {
    TagsArePlain(c);
    FieldsRead(Fields(c));
    Decimal.ReadOfPrint(c.seqNo);
  }
}
