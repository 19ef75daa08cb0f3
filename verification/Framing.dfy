/** Fixed-width unsigned integers, least significant byte first. */
module LittleEndian {
  import opened Bytes

  function Power(width: nat): (p: nat)
    ensures p > 0
  {
    if width == 0 then 1 else 256 * Power(width - 1)
  }

  function Encode(n: nat, width: nat): (b: seq<byte>)
    ensures |b| == width
  {
    if width == 0 then [] else [(n % 256) as byte] + Encode(n / 256, width - 1)
  }

  function Decode(b: seq<byte>): nat {
    if b == [] then 0 else b[0] as nat + 256 * Decode(b[1..])
  }

  lemma {:induction false} DecodeOfEncode(n: nat, width: nat)
    ensures Decode(Encode(n, width)) == n <==> n < Power(width)
  {
    if width > 0 {
      DecodeOfEncode(n / 256, width - 1);
      assert Encode(n, width)[1..] == Encode(n / 256, width - 1);
    }
  }

  lemma {:induction false} EncodeOfDecode(b: seq<byte>)
    ensures Encode(Decode(b), |b|) == b && Decode(b) < Power(|b|)
  {
    if b != [] {
      EncodeOfDecode(b[1..]);
      assert Decode(b) / 256 == Decode(b[1..]);
    }
  }

  /** The least significant byte comes first. */
  lemma FourBytes(n: nat)
    ensures Encode(n, 4) == [(n % 256) as byte, (n / 256 % 256) as byte, (n / 65536 % 256) as byte,
                             (n / 16777216 % 256) as byte]
  {
    assert n / 65536 == n / 256 / 256 && n / 16777216 == n / 65536 / 256;
    var upper := Encode(n / 256, 3);
    assert upper[1..] == Encode(n / 65536, 2) && upper[1..][1..] == Encode(n / 16777216, 1);
  }

  /** Eight bytes are the four low ones and then the four high ones. */
  lemma EightBytes(n: nat)
    ensures Encode(n, 8) == Encode(n, 4) + Encode(n / 4294967296, 4)
  {
    assert n / 4294967296 == n / 256 / 256 / 256 / 256;
    var high := Encode(n / 256 / 256 / 256 / 256, 4);
    assert Encode(n / 256 / 256 / 256, 5) == Encode(n / 256 / 256 / 256, 1) + high;
    assert Encode(n / 256 / 256, 6) == Encode(n / 256 / 256, 2) + high;
    assert Encode(n / 256, 7) == Encode(n / 256, 3) + high;
  }

  lemma Widths()
    ensures Power(4) == 0x1_0000_0000 && Power(8) == 0x1_0000_0000_0000_0000
  {
    assert Power(2) == 0x1_0000;
    assert Power(4) == 0x1_0000_0000;
    assert Power(6) == 0x1_0000_0000_0000;
  }

  /** The two widths in use hold exactly the 32-bit and the 64-bit numbers. */
  lemma WidthsDecode(n: nat)
    ensures Decode(Encode(n, 4)) == n <==> n < 0x1_0000_0000
    ensures Decode(Encode(n, 8)) == n <==> n < 0x1_0000_0000_0000_0000
  {
    Widths();
    DecodeOfEncode(n, 4);
    DecodeOfEncode(n, 8);
  }
}

/** Length-prefixed frames on the daemon's socket. */
module Framing {
  import opened Wrappers
  import opened Bytes
  import LittleEndian

  const MAX_FRAME_BYTES := 4 * 1024 * 1024

  datatype FrameError = MessageTooLarge | FrameTooLarge(len: nat) | UnexpectedEof

  /** The bytes written and not yet read. */
  class Stream {
    var pending: seq<byte>

    constructor ()
      ensures pending == []
    {
      pending := [];
    }

    method WriteAll(bytes: seq<byte>)
      modifies this
      ensures pending == old(pending) + bytes
    {
      pending := pending + bytes;
    }

    /** Fill the whole buffer, or fail at the end of the stream. */
    method ReadExact(buf: array<byte>) returns (ok: bool)
      modifies this, buf
      ensures ok == (buf.Length <= |old(pending)|)
      ensures ok ==> buf[..] == old(pending)[..buf.Length] && pending == old(pending)[buf.Length..]
      ensures !ok ==> pending == []
    {
      var n := 0;
      while n < buf.Length && pending != []
        invariant n <= buf.Length && n <= |old(pending)|
        invariant pending == old(pending)[n..]
        invariant buf[..n] == old(pending)[..n]
      {
        buf[n] := pending[0];
        pending := pending[1..];
        n := n + 1;
      }
      assert n == buf.Length ==> buf[..n] == buf[..];
      return n == buf.Length;
    }
  }

  function Frame(msg: seq<byte>): seq<byte> { LittleEndian.Encode(|msg|, 4) + msg }

  function Frames(msgs: seq<seq<byte>>): seq<byte> {
    if msgs == [] then [] else Frame(msgs[0]) + Frames(msgs[1..])
  }

  predicate Writable(msg: seq<byte>) { |msg| < 0x1_0000_0000 }

  method WriteFramed(stream: Stream, msg: seq<byte>) returns (r: Result<(), FrameError>)
    modifies stream
    ensures r == if Writable(msg) then Ok(()) else Err(MessageTooLarge)
    ensures stream.pending == old(stream.pending) + if Writable(msg) then Frame(msg) else []
  {
    if |msg| >= 0x1_0000_0000 {
      return Err(MessageTooLarge);
    }
    stream.WriteAll(LittleEndian.Encode(|msg|, 4));
    stream.WriteAll(msg);
    return Ok(());
  }

  /** What `read_framed` makes of the bytes on the stream, and the bytes it leaves there. */
  function Received(data: seq<byte>): (Result<seq<byte>, FrameError>, seq<byte>) {
    if |data| < 4 then (Err(UnexpectedEof), [])
    else
      var len := LittleEndian.Decode(data[..4]);
      if len > MAX_FRAME_BYTES then (Err(FrameTooLarge(len)), data[4..])
      else if |data| - 4 < len then (Err(UnexpectedEof), [])
      else (Ok(data[4..4 + len]), data[4 + len..])
  }

  method ReadFramed(stream: Stream) returns (r: Result<seq<byte>, FrameError>)
    modifies stream
    ensures (r, stream.pending) == Received(old(stream.pending))
  {
    ghost var data := stream.pending;
    var lenBuf := new byte[4];
    var ok := stream.ReadExact(lenBuf);
    if !ok {
      return Err(UnexpectedEof);
    }
    var len := LittleEndian.Decode(lenBuf[..]);
    if len > MAX_FRAME_BYTES {
      return Err(FrameTooLarge(len));
    }
    var buf := new byte[len];
    ok := stream.ReadExact(buf);
    if !ok {
      return Err(UnexpectedEof);
    }
    assert data[4..][..len] == data[4..4 + len] && data[4..][len..] == data[4 + len..];
    return Ok(buf[..]);
  }

  lemma FrameParts(msg: seq<byte>, rest: seq<byte>)
    requires Writable(msg)
    ensures var data := Frame(msg) + rest;
            |data| >= 4 && LittleEndian.Decode(data[..4]) == |msg| && data[4..] == msg + rest
  {
    var data := Frame(msg) + rest;
    assert data[..4] == LittleEndian.Encode(|msg|, 4);
    assert data[4..] == msg + rest;
    LittleEndian.WidthsDecode(|msg|);
  }

  /** A message is received, and exactly its frame consumed, precisely when its frame opens the stream
      and the message is within the reader's limit. */
  lemma ReceivedExactly(data: seq<byte>, msg: seq<byte>, rest: seq<byte>)
    ensures Received(data) == (Ok(msg), rest) <==> |msg| <= 4194304 && data == Frame(msg) + rest
  {
    if |msg| <= MAX_FRAME_BYTES && data == Frame(msg) + rest {
      FrameParts(msg, rest);
      assert data[4..4 + |msg|] == data[4..][..|msg|] == msg;
      assert data[4 + |msg|..] == data[4..][|msg|..] == rest;
    }
    if Received(data) == (Ok(msg), rest) {
      LittleEndian.EncodeOfDecode(data[..4]);
      assert data == data[..4] + (data[4..4 + |msg|] + data[4 + |msg|..]);
    }
  }

  /** The writer's limit is the length prefix, the reader's is 4 MiB: a message in between is sent and refused. */
  lemma LargeFrameIsRefused(msg: seq<byte>, rest: seq<byte>)
    requires 4194304 < |msg| < 4294967296
    ensures Received(Frame(msg) + rest) == (Err(FrameTooLarge(|msg|)), msg + rest)
  {
    FrameParts(msg, rest);
  }

  /** A frame cut short is an error, never a shorter message. */
  lemma CutFrameIsRefused(msg: seq<byte>, k: nat)
    requires |msg| <= MAX_FRAME_BYTES && k < |Frame(msg)|
    ensures Received(Frame(msg)[..k]) == (Err(UnexpectedEof), [])
  {
    if k >= 4 {
      var data := Frame(msg)[..k];
      FrameParts(msg, []);
      assert data[..4] == (Frame(msg) + [])[..4];
    }
  }

  /** Reading frame after frame until the stream is empty. */
  function ReceivedAll(data: seq<byte>): Result<seq<seq<byte>>, FrameError>
    decreases |data|
  {
    if data == [] then Ok([])
    else
      match Received(data)
      case (Err(e), _) => Err(e)
      case (Ok(msg), rest) =>
        assert |rest| < |data|;
        match ReceivedAll(rest)
        case Err(e) => Err(e)
        case Ok(msgs) => Ok([msg] + msgs)
  }

  /** Any number of frames written one after the other are received as the messages they carry,
      exactly when each is within the reader's limit. */
  lemma {:induction false} FramesReceived(msgs: seq<seq<byte>>)
    requires forall i | 0 <= i < |msgs| :: Writable(msgs[i])
    ensures ReceivedAll(Frames(msgs)) == Ok(msgs) <==> forall i | 0 <= i < |msgs| :: |msgs[i]| <= 4194304
  {
    if msgs != [] {
      var m, rest := msgs[0], Frames(msgs[1..]);
      FramesReceived(msgs[1..]);
      assert msgs == [m] + msgs[1..];
      if |m| <= MAX_FRAME_BYTES {
        ReceivedExactly(Frame(m) + rest, m, rest);
      } else {
        LargeFrameIsRefused(m, rest);
      }
    }
  }
}
