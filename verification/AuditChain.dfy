/** The canonical byte encoding that the audit chain authenticates, and why it is unambiguous. */
module AuditContent {
  import opened Wrappers
  import opened Bytes
  import Codes
  import Decimal

  /** Separates a tag from its value. */
  const RS: byte := 0x1E
  /** Terminates a field. */
  const US: byte := 0x1F
  const BACKSLASH: byte := 0x5C

  datatype RiskLevel = Low | Medium | High

  /** The fields that are hashed into the chain when a row is inserted. */
  datatype ChainContent = ChainContent(
    seqNo: nat,
    keyId: seq<byte>,
    transactionId: seq<byte>,
    requestId: seq<byte>,
    requestHash: seq<byte>,
    actionName: seq<byte>,
    riskLevel: RiskLevel,
    summary: seq<byte>,
    approvalId: Option<seq<byte>>,
    warningsJson: seq<byte>,
    createdAt: seq<byte>)

  datatype Field = Field(tag: seq<byte>, value: seq<byte>)

  function EscapeByte(b: byte): seq<byte> {
    if b == BACKSLASH then [BACKSLASH, BACKSLASH]
    else if b == 0 then [BACKSLASH, '0' as byte]
    else if b == RS then [BACKSLASH, '1' as byte, 'E' as byte]
    else if b == US then [BACKSLASH, '1' as byte, 'F' as byte]
    else [b]
  }

  function FieldBytes(f: Field): seq<byte> {
    f.tag + [RS] + Codes.Flat(EscapeByte, f.value) + [US]
  }

  function RiskLabel(r: RiskLevel): seq<byte> {
    match r
    case Low => Ascii("low")
    case Medium => Ascii("medium")
    case High => Ascii("high")
  }

  /** An absent approval is written as an empty one. */
  function ApprovalText(c: ChainContent): seq<byte> {
    match c.approvalId
    case None => []
    case Some(id) => id
  }

  function Fields(c: ChainContent): seq<Field> {
    [ Field(Ascii("seq"), Ascii(Decimal.Print(c.seqNo))),
      Field(Ascii("key_id"), c.keyId),
      Field(Ascii("transaction_id"), c.transactionId),
      Field(Ascii("request_id"), c.requestId),
      Field(Ascii("request_hash"), c.requestHash),
      Field(Ascii("action_name"), c.actionName),
      Field(Ascii("risk_level"), RiskLabel(c.riskLevel)),
      Field(Ascii("summary"), c.summary),
      Field(Ascii("approval_id"), ApprovalText(c)),
      Field(Ascii("warnings_json"), c.warningsJson),
      Field(Ascii("created_at"), c.createdAt) ]
  }

  function Canonical(c: ChainContent): seq<byte> {
    Codes.Flat(FieldBytes, Fields(c))
  }

  /** Equal in everything that is hashed: a missing approval and an empty one are the same. */
  ghost predicate SameContent(a: ChainContent, b: ChainContent) {
    a.(approvalId := None) == b.(approvalId := None) && ApprovalText(a) == ApprovalText(b)
  }

  method PushField(buf: ByteBuffer, tag: seq<byte>, value: seq<byte>)
    modifies buf
    ensures buf.data == old(buf.data) + FieldBytes(Field(tag, value))
  {
    buf.Extend(tag);
    buf.Push(RS);
    ghost var start := buf.data;
    for i := 0 to |value|
      invariant buf.data == start + Codes.Flat(EscapeByte, value[..i])
    {
      EscapedSnoc(value, i, start);
      PushEscaped(buf, value[i]);
    }
    assert value[..|value|] == value;
    buf.Push(US);
  }

  lemma EscapedSnoc(value: seq<byte>, i: nat, start: seq<byte>)
    requires i < |value|
    ensures start + Codes.Flat(EscapeByte, value[..i + 1])
         == start + Codes.Flat(EscapeByte, value[..i]) + EscapeByte(value[i])
  {
    Codes.FlatSnoc(EscapeByte, value[..i], value[i]);
    assert value[..i] + [value[i]] == value[..i + 1];
  }

  /** One byte of a value, escaped where the format needs it. */
  method PushEscaped(buf: ByteBuffer, b: byte)
    modifies buf
    ensures buf.data == old(buf.data) + EscapeByte(b)
  {
    if b == BACKSLASH {
      buf.Extend([BACKSLASH, BACKSLASH]);
    } else if b == 0 {
      buf.Extend([BACKSLASH, '0' as byte]);
    } else if b == 0x1E {
      buf.Extend([BACKSLASH, '1' as byte, 'E' as byte]);
    } else if b == 0x1F {
      buf.Extend([BACKSLASH, '1' as byte, 'F' as byte]);
    } else {
      buf.Push(b);
    }
  }

  method CanonicalBytes(c: ChainContent) returns (bytes: seq<byte>)
    ensures bytes == Canonical(c)
  {
    var fields := Fields(c);
    var buf := new ByteBuffer();
    for i := 0 to |fields|
      invariant fresh(buf) && buf.data == Codes.Flat(FieldBytes, fields[..i])
    {
      PushField(buf, fields[i].tag, fields[i].value);
      Codes.FlatSnoc(FieldBytes, fields[..i], fields[i]);
      assert fields[..i] + [fields[i]] == fields[..i + 1];
    }
    assert fields[..|fields|] == fields;
    bytes := buf.data;
  }

  /** The escape table is prefix-free and never produces a bare field terminator. */
  lemma EscapesArePrefixFree()
    ensures Codes.PrefixFree(EscapeByte) && Codes.Avoids(EscapeByte, US)
  {
    forall x: byte, y: byte | EscapeByte(x) <= EscapeByte(y) ensures x == y {
      assert EscapeByte(x)[0] == EscapeByte(y)[0];
      if |EscapeByte(x)| > 1 {
        assert EscapeByte(x)[1] == EscapeByte(y)[1];
        if |EscapeByte(x)| > 2 {
          assert EscapeByte(x)[2] == EscapeByte(y)[2];
        }
      }
    }
  }

  /** One field can be cut off the front of a text in only one way. */
  lemma FieldSelfDelimiting(tag: seq<byte>, v: seq<byte>, w: seq<byte>, p: seq<byte>, q: seq<byte>)
    requires FieldBytes(Field(tag, v)) + p == FieldBytes(Field(tag, w)) + q
    ensures v == w && p == q
  {
    EscapesArePrefixFree();
    var n := |tag| + 1;
    var l, r := FieldBytes(Field(tag, v)) + p, FieldBytes(Field(tag, w)) + q;
    assert l[n..] == Codes.Flat(EscapeByte, v) + [US] + p;
    assert r[n..] == Codes.Flat(EscapeByte, w) + [US] + q;
    Codes.SelfDelimiting(EscapeByte, US, v, w, p, q);
  }

  lemma {:induction false} FieldsSelfDelimiting(fs: seq<Field>, gs: seq<Field>, p: seq<byte>, q: seq<byte>)
    requires |fs| == |gs| && forall i | 0 <= i < |fs| :: fs[i].tag == gs[i].tag
    requires Codes.Flat(FieldBytes, fs) + p == Codes.Flat(FieldBytes, gs) + q
    ensures fs == gs && p == q
  {
    if fs != [] {
      var p', q' := Codes.Flat(FieldBytes, fs[1..]) + p, Codes.Flat(FieldBytes, gs[1..]) + q;
      assert FieldBytes(fs[0]) + p' == Codes.Flat(FieldBytes, fs) + p;
      assert FieldBytes(gs[0]) + q' == Codes.Flat(FieldBytes, gs) + q;
      FieldSelfDelimiting(fs[0].tag, fs[0].value, gs[0].value, p', q');
      FieldsSelfDelimiting(fs[1..], gs[1..], p, q);
    } else {
      assert Codes.Flat(FieldBytes, fs) + p == p && Codes.Flat(FieldBytes, gs) + q == q;
    }
  }

  lemma RiskLabelInjective(a: RiskLevel, b: RiskLevel)
    requires RiskLabel(a) == RiskLabel(b)
    ensures a == b
  {
    assert |RiskLabel(a)| == |RiskLabel(b)|;
  }

  /** The canonical form is self-delimiting: whatever bytes follow it, it determines every hashed
      field and the bytes that follow. */
  lemma CanonicalSelfDelimiting(a: ChainContent, b: ChainContent, p: seq<byte>, q: seq<byte>)
    requires Canonical(a) + p == Canonical(b) + q
    ensures SameContent(a, b) && p == q
  {
    var fs, gs := Fields(a), Fields(b);
    FieldsSelfDelimiting(fs, gs, p, q);
    assert forall i | 0 <= i < 11 :: fs[i].value == gs[i].value;
    assert fs[0].value == gs[0].value && fs[6].value == gs[6].value;
    AsciiInjective(Decimal.Print(a.seqNo), Decimal.Print(b.seqNo));
    Decimal.PrintInjective(a.seqNo, b.seqNo);
    RiskLabelInjective(a.riskLevel, b.riskLevel);
    assert fs[1].value == gs[1].value && fs[2].value == gs[2].value && fs[3].value == gs[3].value;
    assert fs[4].value == gs[4].value && fs[5].value == gs[5].value && fs[7].value == gs[7].value;
    assert fs[8].value == gs[8].value && fs[9].value == gs[9].value && fs[10].value == gs[10].value;
  }

  /** The exact strength of the encoding: contents encode alike iff they agree in every hashed field. */
  lemma CanonicalIffSame(a: ChainContent, b: ChainContent)
    ensures Canonical(a) == Canonical(b) <==> SameContent(a, b)
  {
    if SameContent(a, b) {
      assert Fields(a) == Fields(b);
    }
    if Canonical(a) == Canonical(b) {
      assert Canonical(a) + [] == Canonical(b) + [];
      CanonicalSelfDelimiting(a, b, [], []);
    }
  }
}

/** The forward chain of keyed tags over the rows, and what a verified chain guarantees. */
module AuditChain {
  import opened Wrappers
  import opened Bytes
  import opened AuditContent

  const HASH_HEX_LEN := 64

  /** A hex-encoded tag. */
  type Tag = s: seq<byte> | |s| == HASH_HEX_LEN witness seq(HASH_HEX_LEN, _ => 0)

  /** A loaded key; `mac` is the keyed tag function, about which nothing but its length is known. */
  datatype AuditKey = AuditKey(keyId: seq<byte>, mac: seq<byte> -> Tag)

  datatype ChainRow = ChainRow(content: ChainContent, prevChainHash: seq<byte>, chainHash: seq<byte>)

  datatype VerifyOutcome =
    | Intact(rowsChecked: nat)
    | Broken(rowsChecked: nat, firstBrokenSeq: nat, firstBrokenTransactionId: seq<byte>,
             expected: seq<byte>, actual: seq<byte>)
    | CannotVerify(atSeq: nat, rowKeyId: seq<byte>, loadedKeyId: seq<byte>)

  function Message(content: ChainContent, prev: seq<byte>): seq<byte> {
    Canonical(content) + prev
  }

  function ChainHash(key: AuditKey, content: ChainContent, prev: seq<byte>): Tag {
    key.mac(Message(content, prev))
  }

  function RowMessage(r: ChainRow): seq<byte> { Message(r.content, r.prevChainHash) }

  /** The hash that row `k` has to link to. */
  function LinkFor(rows: seq<ChainRow>, k: nat): seq<byte>
    requires k <= |rows|
  {
    if k == 0 then [] else rows[k - 1].chainHash
  }

  predicate KeyOk(key: AuditKey, r: ChainRow) { r.content.keyId == key.keyId }

  predicate LinkOk(rows: seq<ChainRow>, k: nat)
    requires k < |rows|
  {
    rows[k].prevChainHash == LinkFor(rows, k)
  }

  predicate TagOk(key: AuditKey, r: ChainRow) {
    ChainHash(key, r.content, r.prevChainHash) == r.chainHash
  }

  predicate RowOk(key: AuditKey, rows: seq<ChainRow>, k: nat)
    requires k < |rows|
  {
    KeyOk(key, rows[k]) && LinkOk(rows, k) && TagOk(key, rows[k])
  }

  ghost predicate ChainOk(key: AuditKey, rows: seq<ChainRow>) {
    forall k | 0 <= k < |rows| :: RowOk(key, rows, k)
  }

  /** `k` is the least index whose row fails (the number of rows when none fails). */
  ghost predicate FirstFault(key: AuditKey, rows: seq<ChainRow>, k: nat) {
    && k <= |rows|
    && (forall j | 0 <= j < k :: RowOk(key, rows, j))
    && (k < |rows| ==> !RowOk(key, rows, k))
  }

  function PrevLabel(): seq<byte> { Ascii("prev_chain_hash=") }

  /** What has to be reported when `k` is the first fault. */
  function Report(key: AuditKey, rows: seq<ChainRow>, k: nat): VerifyOutcome
    requires k <= |rows|
  {
    if k == |rows| then Intact(k)
    else
      var r := rows[k];
      if !KeyOk(key, r) then CannotVerify(r.content.seqNo, r.content.keyId, key.keyId)
      else if !LinkOk(rows, k) then
        Broken(k, r.content.seqNo, r.content.transactionId,
               PrevLabel() + LinkFor(rows, k), PrevLabel() + r.prevChainHash)
      else
        Broken(k, r.content.seqNo, r.content.transactionId,
               ChainHash(key, r.content, r.prevChainHash), r.chainHash)
  }

  /** Walks the rows once and reports exactly the first fault. */
  method VerifyChain(key: AuditKey, rows: seq<ChainRow>) returns (out: VerifyOutcome)
    ensures exists k :: FirstFault(key, rows, k) && out == Report(key, rows, k)
    ensures out.Intact? <==> ChainOk(key, rows)
  {
    var lastHash: seq<byte> := [];
    var rowsChecked := 0;
    while rowsChecked < |rows|
      invariant rowsChecked <= |rows|
      invariant lastHash == LinkFor(rows, rowsChecked)
      invariant forall j | 0 <= j < rowsChecked :: RowOk(key, rows, j)
    {
      var row := rows[rowsChecked];
      assert RowOk(key, rows, rowsChecked) || FirstFault(key, rows, rowsChecked);
      if row.content.keyId != key.keyId {
        out := CannotVerify(row.content.seqNo, row.content.keyId, key.keyId);
        return;
      }
      if row.prevChainHash != lastHash {
        out := Broken(rowsChecked, row.content.seqNo, row.content.transactionId,
                      PrevLabel() + lastHash, PrevLabel() + row.prevChainHash);
        return;
      }
      var expected := ChainHash(key, row.content, row.prevChainHash);
      if expected != row.chainHash {
        out := Broken(rowsChecked, row.content.seqNo, row.content.transactionId, expected, row.chainHash);
        return;
      }
      lastHash := row.chainHash;
      rowsChecked := rowsChecked + 1;
    }
    assert FirstFault(key, rows, rowsChecked);
    out := Intact(rowsChecked);
  }

  /** What the report of a first fault says: the row, its number and identifier, and the two texts that differ. A
      foreign key is reported before a wrong link, and a wrong link before a wrong tag. */
  lemma ReportSays(key: AuditKey, rows: seq<ChainRow>, k: nat)
    requires FirstFault(key, rows, k) && k < |rows|
    ensures var r := rows[k];
            var prev := if k == 0 then [] else rows[k - 1].chainHash;
            match Report(key, rows, k)
            case Intact(_) => false
            case CannotVerify(n, rowKey, loadedKey) =>
              n == r.content.seqNo && rowKey == r.content.keyId && loadedKey == key.keyId && rowKey != loadedKey
            case Broken(checked, n, id, expected, actual) =>
              && r.content.keyId == key.keyId
              && checked == k && n == r.content.seqNo && id == r.content.transactionId && expected != actual
              && if r.prevChainHash != prev
                 then expected == Ascii("prev_chain_hash=") + prev
                      && actual == Ascii("prev_chain_hash=") + r.prevChainHash
                 else expected == key.mac(Canonical(r.content) + prev) && actual == r.chainHash
  {
    var r := rows[k];
    var prev := LinkFor(rows, k);
    if r.prevChainHash != prev {
      assert (PrevLabel() + prev)[|PrevLabel()|..] == prev;
      assert (PrevLabel() + r.prevChainHash)[|PrevLabel()|..] == r.prevChainHash;
    }
  }

  /** A list of rows has only one first fault, so the report is determined by the rows. */
  lemma FirstFaultUnique(key: AuditKey, rows: seq<ChainRow>, k: nat, n: nat)
    requires FirstFault(key, rows, k) && FirstFault(key, rows, n)
    ensures k == n
  {
  }

  /** Two different messages of the given rows carry the same tag. */
  ghost predicate Collision(key: AuditKey, r: ChainRow, s: ChainRow) {
    RowMessage(r) != RowMessage(s) && key.mac(RowMessage(r)) == key.mac(RowMessage(s))
  }

  ghost predicate SameRow(r: ChainRow, s: ChainRow) {
    SameContent(r.content, s.content) && r.prevChainHash == s.prevChainHash && r.chainHash == s.chainHash
  }

  /** Equal tags on two rows mean the same content and the same link, or the rows collide. */
  lemma EqualTags(key: AuditKey, r: ChainRow, s: ChainRow)
    requires TagOk(key, r) && TagOk(key, s) && r.chainHash == s.chainHash
    ensures SameRow(r, s) || Collision(key, r, s)
  {
    if RowMessage(r) == RowMessage(s) {
      CanonicalSelfDelimiting(r.content, s.content, r.prevChainHash, s.prevChainHash);
    }
  }

  lemma PrefixOk(key: AuditKey, rows: seq<ChainRow>, n: nat)
    requires ChainOk(key, rows) && n <= |rows|
    ensures ChainOk(key, rows[..n])
  {
    forall k | 0 <= k < n ensures RowOk(key, rows[..n], k) {
      assert RowOk(key, rows, k) && LinkFor(rows[..n], k) == LinkFor(rows, k);
    }
  }

  ghost predicate SameHistory(xs: seq<ChainRow>, ys: seq<ChainRow>) {
    |xs| == |ys| && forall i | 0 <= i < |xs| :: SameRow(xs[i], ys[i])
  }

  /** A row of one list collides with a row of the other. */
  ghost predicate Collide(key: AuditKey, xs: seq<ChainRow>, ys: seq<ChainRow>) {
    exists i, j :: 0 <= i < |xs| && 0 <= j < |ys| && Collision(key, xs[i], ys[j])
  }

  lemma CollideExtend(key: AuditKey, xs: seq<ChainRow>, ys: seq<ChainRow>, x: ChainRow, y: ChainRow)
    requires Collide(key, xs, ys) || Collision(key, x, y)
    ensures Collide(key, xs + [x], ys + [y])
  {
    var xs', ys' := xs + [x], ys + [y];
    if Collide(key, xs, ys) {
      var i, j :| 0 <= i < |xs| && 0 <= j < |ys| && Collision(key, xs[i], ys[j]);
      assert Collision(key, xs'[i], ys'[j]);
    } else {
      assert Collision(key, xs'[|xs|], ys'[|ys|]);
    }
  }

  lemma LastSplit<T>(s: seq<T>)
    requires |s| > 0
    ensures s == s[..|s| - 1] + [s[|s| - 1]]
  {
  }

  /** The tip of a verified chain binds its whole history: two verified chains that end in the same
      tag agree row for row, or two of their rows with different messages carry the same tag. */
  lemma {:induction false} TipBindsHistory(key: AuditKey, xs: seq<ChainRow>, ys: seq<ChainRow>)
    requires ChainOk(key, xs) && ChainOk(key, ys)
    requires LinkFor(xs, |xs|) == LinkFor(ys, |ys|)
    ensures SameHistory(xs, ys) || Collide(key, xs, ys)
  {
    assert |xs| > 0 ==> RowOk(key, xs, |xs| - 1);
    assert |ys| > 0 ==> RowOk(key, ys, |ys| - 1);
    if |xs| > 0 && |ys| > 0 {
      var m, n := |xs| - 1, |ys| - 1;
      var xs', ys' := xs[..m], ys[..n];
      LastSplit(xs);
      LastSplit(ys);
      EqualTags(key, xs[m], ys[n]);
      if Collision(key, xs[m], ys[n]) {
        CollideExtend(key, xs', ys', xs[m], ys[n]);
      } else {
        PrefixOk(key, xs, m);
        PrefixOk(key, ys, n);
        assert LinkFor(xs', m) == LinkFor(xs, m) && LinkFor(ys', n) == LinkFor(ys, n);
        TipBindsHistory(key, xs', ys');
        if Collide(key, xs', ys') {
          CollideExtend(key, xs', ys', xs[m], ys[n]);
        }
      }
    }
  }

  /** The row that the store inserts after `rows`. */
  function NextRow(key: AuditKey, rows: seq<ChainRow>, content: ChainContent): ChainRow {
    var prev := LinkFor(rows, |rows|);
    ChainRow(content, prev, ChainHash(key, content, prev))
  }

  /** Appending a freshly hashed row keeps a chain intact. */
  lemma AppendKeepsOk(key: AuditKey, rows: seq<ChainRow>, content: ChainContent)
    requires ChainOk(key, rows) && content.keyId == key.keyId
    ensures ChainOk(key, rows + [NextRow(key, rows, content)])
  {
    var rows' := rows + [NextRow(key, rows, content)];
    forall k | 0 <= k < |rows'| ensures RowOk(key, rows', k) {
      assert LinkFor(rows', k) == LinkFor(rows, k);
      if k < |rows| {
        assert RowOk(key, rows, k);
      }
    }
  }

  ghost predicate DistinctSeq(rows: seq<ChainRow>) {
    forall i, j | 0 <= i < j < |rows| :: rows[i].content.seqNo != rows[j].content.seqNo
  }

  /** Deleting a row that is not the last is reported at exactly the row that followed it,
      as a broken link, unless the deleted row collides with its predecessor. */
  lemma DeletionIsReported(key: AuditKey, rows: seq<ChainRow>, k: nat)
    requires ChainOk(key, rows) && DistinctSeq(rows) && k + 1 < |rows|
    ensures
      var cut := rows[..k] + rows[k + 1..];
      || (FirstFault(key, cut, k) && KeyOk(key, cut[k]) && !LinkOk(cut, k)
          && cut[k] == rows[k + 1] && Report(key, cut, k).Broken?)
      || (k > 0 && Collision(key, rows[k - 1], rows[k]))
  {
    var cut := rows[..k] + rows[k + 1..];
    assert RowOk(key, rows, k) && RowOk(key, rows, k + 1);
    forall j | 0 <= j < k ensures RowOk(key, cut, j) {
      assert RowOk(key, rows, j) && LinkFor(cut, j) == LinkFor(rows, j);
    }
    assert LinkFor(cut, k) == LinkFor(rows, k);
    if k > 0 && LinkOk(cut, k) {
      assert RowOk(key, rows, k - 1);
      EqualTags(key, rows[k - 1], rows[k]);
    }
  }

  /** Changing a hashed field or the stored link of one row, while its stored tag stays, is reported
      at exactly that row, unless the old and the new row collide. */
  lemma EditIsReported(key: AuditKey, rows: seq<ChainRow>, k: nat, edited: ChainRow)
    requires ChainOk(key, rows) && k < |rows|
    requires edited.chainHash == rows[k].chainHash && !SameRow(edited, rows[k])
    ensures FirstFault(key, rows[k := edited], k) || Collision(key, edited, rows[k])
  {
    var rows' := rows[k := edited];
    assert RowOk(key, rows, k);
    forall j | 0 <= j < k ensures RowOk(key, rows', j) {
      assert RowOk(key, rows, j) && LinkFor(rows', j) == LinkFor(rows, j);
    }
    if RowOk(key, rows', k) {
      EqualTags(key, edited, rows[k]);
    }
  }

  /** Changing the stored tag of a row that is not the last is reported at that row or the next. */
  lemma RetagIsReported(key: AuditKey, rows: seq<ChainRow>, k: nat, edited: ChainRow)
    requires ChainOk(key, rows) && k + 1 < |rows|
    requires edited.chainHash != rows[k].chainHash
    ensures FirstFault(key, rows[k := edited], k) || FirstFault(key, rows[k := edited], k + 1)
  {
    var rows' := rows[k := edited];
    assert RowOk(key, rows, k + 1);
    forall j | 0 <= j < k ensures RowOk(key, rows', j) {
      assert RowOk(key, rows, j) && LinkFor(rows', j) == LinkFor(rows, j);
    }
    assert !LinkOk(rows', k + 1);
  }

  // ----- Rows made without the key -----

  /** Every row of `ys` carries a message that some row of `xs` carries: without the key, no other message
      can be given its tag. */
  ghost predicate Recycled(xs: seq<ChainRow>, ys: seq<ChainRow>) {
    forall i | 0 <= i < |ys| :: HasMessage(xs, RowMessage(ys[i]))
  }

  ghost predicate HasMessage(xs: seq<ChainRow>, message: seq<byte>) {
    exists j :: 0 <= j < |xs| && RowMessage(xs[j]) == message
  }

  /** The first `n` rows of `ys` repeat those of `xs`. */
  ghost predicate Repeats(xs: seq<ChainRow>, ys: seq<ChainRow>, n: nat) {
    n <= |xs| && n <= |ys| && forall i | 0 <= i < n :: SameRow(xs[i], ys[i])
  }

  /** A message that follows the first `n` rows of a chain is that of row `n`, or two rows collide. */
  lemma LinkFindsPlace(key: AuditKey, xs: seq<ChainRow>, n: nat, j: nat)
    requires ChainOk(key, xs) && DistinctSeq(xs) && n <= |xs| && j < |xs|
    requires xs[j].prevChainHash == LinkFor(xs, n)
    ensures j == n || Collide(key, xs, xs)
  {
    assert RowOk(key, xs, j);
    assert n > 0 ==> RowOk(key, xs, n - 1);
    assert j > 0 ==> RowOk(key, xs, j - 1);
    if n > 0 && j > 0 {
      EqualTags(key, xs[j - 1], xs[n - 1]);
    }
  }

  lemma SameMessageSameRow(key: AuditKey, x: ChainRow, y: ChainRow)
    requires TagOk(key, x) && TagOk(key, y) && RowMessage(x) == RowMessage(y)
    ensures SameRow(x, y)
  {
    CanonicalSelfDelimiting(x.content, y.content, x.prevChainHash, y.prevChainHash);
  }

  lemma NextRepeats(key: AuditKey, xs: seq<ChainRow>, ys: seq<ChainRow>, n: nat)
    requires ChainOk(key, xs) && DistinctSeq(xs) && n < |ys| && RowOk(key, ys, n)
    requires HasMessage(xs, RowMessage(ys[n])) && Repeats(xs, ys, n)
    ensures Repeats(xs, ys, n + 1) || Collide(key, xs, xs)
  {
    var j :| 0 <= j < |xs| && RowMessage(xs[j]) == RowMessage(ys[n]);
    assert RowOk(key, xs, j);
    SameMessageSameRow(key, xs[j], ys[n]);
    assert n > 0 ==> SameRow(xs[n - 1], ys[n - 1]);
    LinkFindsPlace(key, xs, n, j);
  }

  lemma {:induction false} RepeatsUpTo(key: AuditKey, xs: seq<ChainRow>, ys: seq<ChainRow>, n: nat)
    requires ChainOk(key, xs) && ChainOk(key, ys) && DistinctSeq(xs) && Recycled(xs, ys) && n <= |ys|
    ensures Repeats(xs, ys, n) || Collide(key, xs, xs)
  {
    if n > 0 {
      RepeatsUpTo(key, xs, ys, n - 1);
      assert RowOk(key, ys, n - 1) && HasMessage(xs, RowMessage(ys[n - 1]));
      if Repeats(xs, ys, n - 1) {
        NextRepeats(key, xs, ys, n - 1);
      }
    }
  }

  /** Whoever rearranges the rows of an intact chain without the key - deleting, copying, moving or splicing
      them, or editing anything - is left with a prefix of it if the result is to be intact, or two of its
      rows collide. */
  lemma OnlyPrefixesStayIntact(key: AuditKey, xs: seq<ChainRow>, ys: seq<ChainRow>)
    requires ChainOk(key, xs) && ChainOk(key, ys) && DistinctSeq(xs) && Recycled(xs, ys)
    ensures (|ys| <= |xs| && SameHistory(xs[..|ys|], ys)) || Collide(key, xs, xs)
  {
    RepeatsUpTo(key, xs, ys, |ys|);
  }
}
