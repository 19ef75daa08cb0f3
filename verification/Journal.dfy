/** Log records in journald's native protocol. */
module Journal {
  import opened Wrappers
  import opened Bytes
  import Codes
  import LittleEndian
  import TextLines

  const NL: byte := 0x0A
  const EQ: byte := 0x3D

  datatype Field = Field(key: seq<byte>, value: seq<byte>)

  /** A length that a `usize` can hold. */
  predicate Sized(f: Field) { |f.value| < 0x1_0000_0000_0000_0000 }

  /** A value with a newline goes behind its length, any other behind an equals sign. */
  function Encoded(f: Field): seq<byte> {
    if NL in f.value then f.key + [NL] + LittleEndian.Encode(|f.value|, 8) + f.value + [NL]
    else f.key + [EQ] + f.value + [NL]
  }

  function Message(fs: seq<Field>): seq<byte> { Codes.Flat(Encoded, fs) }

  method EncodeMessage(fields: seq<Field>) returns (msg: seq<byte>)
    ensures msg == Message(fields)
  {
    msg := [];
    for i := 0 to |fields|
      invariant msg == Message(fields[..i])
    {
      assert fields[..i + 1] == fields[..i] + [fields[i]];
      Codes.FlatSnoc(Encoded, fields[..i], fields[i]);
      ghost var before := msg;
      var key, value := fields[i].key, fields[i].value;
      if NL in value {
        msg := msg + key;
        msg := msg + [NL];
        var len := |value|;
        msg := msg + LittleEndian.Encode(len, 8);
        msg := msg + value;
        msg := msg + [NL];
      } else {
        msg := msg + key;
        msg := msg + [EQ];
        msg := msg + value;
        msg := msg + [NL];
      }
      assert msg == before + Encoded(fields[i]);
    }
    assert fields[..|fields|] == fields;
  }

  // ---- Reading, with byte values of its own ----

  /** Where the field name ends: at the first equals sign or newline. */
  function NameEnd(s: seq<byte>): (i: nat)
    ensures i <= |s| && (i < |s| ==> s[i] == 0x3D || s[i] == 0x0A)
    ensures 0x3D !in s[..i] && 0x0A !in s[..i]
  {
    if s == [] || s[0] == 0x3D || s[0] == 0x0A then 0
    else
      assert s[..1 + NameEnd(s[1..])] == [s[0]] + s[1..][..NameEnd(s[1..])];
      1 + NameEnd(s[1..])
  }

  predicate ValidKey(key: seq<byte>) { key != [] && 0x3D !in key && 0x0A !in key }

  /** One field read off the front of a datagram, as the protocol describes it. */
  function ReadField(s: seq<byte>): (r: Option<(Field, seq<byte>)>)
    ensures r.Some? ==> ValidKey(r.value.0.key) && |r.value.1| < |s|
  {
    var n := NameEnd(s);
    if n == 0 || n == |s| then None
    else if s[n] == 0x3D then
      var text := s[n + 1..];
      var m := TextLines.Break(text, 0x0A);
      if m == |text| then None else Some((Field(s[..n], text[..m]), text[m + 1..]))
    else
      var binary := s[n + 1..];
      if |binary| < 8 then None
      else
        var len := LittleEndian.Decode(binary[..8]);
        if |binary| - 8 <= len || binary[8 + len] != 0x0A then None
        else Some((Field(s[..n], binary[8..8 + len]), binary[8 + len + 1..]))
  }

  function ReadFields(s: seq<byte>): Option<seq<Field>>
    decreases |s|
  {
    if s == [] then Some([])
    else
      match ReadField(s)
      case None => None
      case Some((f, rest)) =>
        match ReadFields(rest)
        case None => None
        case Some(fs) => Some([f] + fs)
  }

  lemma {:induction false} NameEndOf(key: seq<byte>, rest: seq<byte>)
    requires EQ !in key && NL !in key && rest != [] && (rest[0] == EQ || rest[0] == NL)
    ensures NameEnd(key + rest) == |key|
  {
    if key == [] {
      assert key + rest == rest;
    } else {
      assert (key + rest)[1..] == key[1..] + rest;
      assert EQ !in key[1..] && NL !in key[1..];
      NameEndOf(key[1..], rest);
    }
  }

  lemma KeyThen(key: seq<byte>, end: byte, tail: seq<byte>)
    requires 0x3D !in key && 0x0A !in key && (end == 0x3D || end == 0x0A)
    ensures var s := key + ([end] + tail);
            NameEnd(s) == |key| < |s| && s[|key|] == end && s[..|key|] == key && s[|key| + 1..] == tail
  {
    NameEndOf(key, [end] + tail);
  }

  lemma ReadText(s: seq<byte>, key: seq<byte>, value: seq<byte>, rest: seq<byte>)
    requires ValidKey(key) && NL !in value && s == key + ([0x3D] + (value + [NL] + rest))
    ensures ReadField(s) == Some((Field(key, value), rest))
  {
    var text := value + [NL] + rest;
    KeyThen(key, 0x3D, text);
    TextLines.BreakOf(value, NL, rest);
    assert text[..|value|] == value && text[|value| + 1..] == rest;
  }

  lemma RegroupText(key: seq<byte>, eq: seq<byte>, value: seq<byte>, nl: seq<byte>, rest: seq<byte>)
    ensures key + eq + value + nl + rest == key + (eq + (value + nl + rest))
  {
  }

  lemma TextFieldReads(f: Field, rest: seq<byte>)
    requires ValidKey(f.key) && NL !in f.value
    ensures ReadField(f.key + [EQ] + f.value + [NL] + rest) == Some((f, rest))
  {
    RegroupText(f.key, [EQ], f.value, [NL], rest);
    ReadText(f.key + [EQ] + f.value + [NL] + rest, f.key, f.value, rest);
  }

  lemma BinaryParts(value: seq<byte>, rest: seq<byte>)
    requires |value| < 0x1_0000_0000_0000_0000
    ensures var binary := LittleEndian.Encode(|value|, 8) + value + [NL] + rest;
            && |binary| == 8 + |value| + 1 + |rest|
            && LittleEndian.Decode(binary[..8]) == |value| && binary[8..8 + |value|] == value
            && binary[8 + |value|] == NL && binary[8 + |value| + 1..] == rest
  {
    var len := LittleEndian.Encode(|value|, 8);
    var binary := len + value + [NL] + rest;
    assert binary[..8] == len;
    LittleEndian.WidthsDecode(|value|);
  }

  lemma ReadBinary(s: seq<byte>, key: seq<byte>, binary: seq<byte>, value: seq<byte>, rest: seq<byte>)
    requires ValidKey(key) && s == key + ([0x0A] + binary)
    requires |binary| == 8 + |value| + 1 + |rest| && LittleEndian.Decode(binary[..8]) == |value|
    requires binary[8..8 + |value|] == value && binary[8 + |value|] == 0x0A && binary[8 + |value| + 1..] == rest
    ensures ReadField(s) == Some((Field(key, value), rest))
  {
    KeyThen(key, 0x0A, binary);
  }

  lemma BinaryFieldReads(f: Field, rest: seq<byte>)
    requires ValidKey(f.key) && Sized(f)
    ensures ReadField(f.key + [NL] + LittleEndian.Encode(|f.value|, 8) + f.value + [NL] + rest) == Some((f, rest))
  {
    var len := LittleEndian.Encode(|f.value|, 8);
    BinaryParts(f.value, rest);
    Regroup(f.key, len, f.value, rest);
    ReadBinary(f.key + [NL] + len + f.value + [NL] + rest, f.key, len + f.value + [NL] + rest, f.value, rest);
  }

  lemma Regroup(key: seq<byte>, len: seq<byte>, value: seq<byte>, rest: seq<byte>)
    ensures key + [NL] + len + value + [NL] + rest == key + ([NL] + (len + value + [NL] + rest))
  {
  }

  lemma FieldReads(f: Field, rest: seq<byte>)
    requires ValidKey(f.key) && Sized(f)
    ensures ReadField(Encoded(f) + rest) == Some((f, rest))
  {
    if NL in f.value { BinaryFieldReads(f, rest); } else { TextFieldReads(f, rest); }
  }

  lemma {:induction false} KeysRead(s: seq<byte>)
    ensures var r := ReadFields(s); r.Some? ==> forall i | 0 <= i < |r.value| :: ValidKey(r.value[i].key)
    decreases |s|
  {
    if s != [] && ReadField(s).Some? {
      KeysRead(ReadField(s).value.1);
    }
  }

  lemma ReadFieldsStep(s: seq<byte>, f: Field, rest: seq<byte>)
    requires ReadField(s) == Some((f, rest))
    ensures ReadFields(s) == match ReadFields(rest) case None => None case Some(fs) => Some([f] + fs)
  {
  }

  lemma MessageFirst(fs: seq<Field>)
    requires fs != []
    ensures Message(fs) == Encoded(fs[0]) + Message(fs[1..])
  {
  }

  lemma {:induction false} ValidMessageReads(fs: seq<Field>)
    requires forall i | 0 <= i < |fs| :: Sized(fs[i]) && ValidKey(fs[i].key)
    ensures ReadFields(Message(fs)) == Some(fs)
  {
    if fs != [] {
      var rest := Message(fs[1..]);
      ValidMessageReads(fs[1..]);
      FieldReads(fs[0], rest);
      MessageFirst(fs);
      ReadFieldsStep(Message(fs), fs[0], rest);
      assert fs == [fs[0]] + fs[1..];
    }
  }

  /** The fields of a message come back, whatever bytes the values hold, exactly when every key is
      non-empty and free of equals signs and newlines. */
  lemma MessageReadsBack(fs: seq<Field>)
    requires forall i | 0 <= i < |fs| :: Sized(fs[i])
    ensures ReadFields(Message(fs)) == Some(fs) <==> forall i | 0 <= i < |fs| :: ValidKey(fs[i].key)
  {
    KeysRead(Message(fs));
    if forall i | 0 <= i < |fs| :: ValidKey(fs[i].key) {
      ValidMessageReads(fs);
    }
  }
}
