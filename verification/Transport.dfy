/**
 Length-prefixed frames over a byte stream (net/SocketTransport.cpp).  The TLS
 layer is an in-order byte channel that may take and hand over any positive
 number of bytes at a time, and may fail; want-read and want-write retries are
 stutter steps and do not appear.
 */
module Transport {
  import opened Util
  import opened Protocol

  datatype Message = Message(op: u8, payload: Bytes)

  predicate Sendable(m: Message) { 1 + |m.payload| <= MAX_MESSAGE_SIZE }

  ghost predicate AllSendable(ms: seq<Message>) {
    forall i | 0 <= i < |ms| :: Sendable(ms[i])
  }

  function FrameOf(m: Message): Bytes {
    BigEndian(4, 1 + |m.payload|) + [m.op as byte] + m.payload
  }

  function FramesOf(ms: seq<Message>): Bytes {
    if ms == [] then [] else FrameOf(ms[0]) + FramesOf(ms[1..])
  }

  // One frame off the front of the stream, as the receiver reads it.
  function Unframe(wire: Bytes): (r: Option<(Message, Bytes)>)
    ensures r.Some? ==> |r.value.1| < |wire|
  {
    if |wire| < 4 then None else
      var len := Value(wire[..4]);
      if len < 1 || len > MAX_MESSAGE_SIZE || |wire| < 4 + len then None else
        Some((Message(wire[4] as nat, wire[5..4 + len]), wire[4 + len..]))
  }

  function UnframeAll(wire: Bytes): seq<Message>
    decreases |wire|
  {
    match Unframe(wire)
    case None => []
    case Some((m, rest)) => [m] + UnframeAll(rest)
  }

  lemma FrameSize(m: Message)
    requires Sendable(m)
    ensures |FrameOf(m)| == 5 + |m.payload|
  {
    Pow256Values();
    ValueOfBigEndian(4, 1 + |m.payload|);
  }

  lemma UnframeOfFrame(m: Message, rest: Bytes)
    requires Sendable(m)
    ensures Unframe(FrameOf(m) + rest) == Some((m, rest))
  {
    Pow256Values();
    var len := 1 + |m.payload|;
    ValueOfBigEndian(4, len);
    var wire := FrameOf(m) + rest;
    assert wire[..4] == BigEndian(4, len);
    assert wire[5..4 + len] == m.payload && wire[4 + len..] == rest;
  }

  lemma UnframeAllOfFrame(m: Message, rest: Bytes)
    requires Sendable(m)
    ensures UnframeAll(FrameOf(m) + rest) == [m] + UnframeAll(rest)
  {
    UnframeOfFrame(m, rest);
  }

  // A frame cut short is not read at all.
  lemma UnframeOfPart(m: Message, n: nat)
    requires Sendable(m) && n < |FrameOf(m)|
    ensures UnframeAll(FrameOf(m)[..n]) == []
  {
    Pow256Values();
    ValueOfBigEndian(4, 1 + |m.payload|);
    if n >= 4 {
      assert FrameOf(m)[..n][..4] == BigEndian(4, 1 + |m.payload|);
    }
  }

  lemma UnframeFirst(m: Message, tail: Bytes, rest: Bytes, ms: seq<Message>, more: seq<Message>)
    requires Sendable(m) && UnframeAll(tail + rest) == ms + more
    ensures UnframeAll(FrameOf(m) + tail + rest) == [m] + ms + more
  {
    Assoc(FrameOf(m), tail, rest);
    Assoc([m], ms, more);
    UnframeAllOfFrame(m, tail + rest);
  }

  lemma {:induction false} UnframeOfFrames(ms: seq<Message>, rest: Bytes)
    requires AllSendable(ms)
    ensures UnframeAll(FramesOf(ms) + rest) == ms + UnframeAll(rest)
  {
    if ms == [] {
      assert FramesOf(ms) + rest == rest;
    } else {
      UnframeOfFrames(ms[1..], rest);
      UnframeFirst(ms[0], FramesOf(ms[1..]), rest, ms[1..], UnframeAll(rest));
      assert [ms[0]] + ms[1..] == ms;
    }
  }

  lemma {:induction false} FramesOfAppend(ms: seq<Message>, m: Message)
    ensures FramesOf(ms + [m]) == FramesOf(ms) + FrameOf(m)
  {
    if ms == [] {
      assert (ms + [m])[1..] == [];
      assert FrameOf(m) + [] == FrameOf(m);
    } else {
      assert (ms + [m])[1..] == ms[1..] + [m];
      FramesOfAppend(ms[1..], m);
      Assoc(FrameOf(ms[0]), FramesOf(ms[1..]), FrameOf(m));
    }
  }

  // ---------------------------------------------------------- typed messages

  function Pack(m: Msg): Message { Message(OpOf(m), Encode(m)) }

  function PackAll(ms: seq<Msg>): seq<Message> {
    if ms == [] then [] else [Pack(ms[0])] + PackAll(ms[1..])
  }

  // Decoding each message in turn, up to the first that throws; an unknown opcode is passed over.
  function UnpackAll(ms: seq<Message>): seq<Msg> {
    if ms == [] then []
    else if Layout(ms[0].op).None? then UnpackAll(ms[1..])
    else
      match Decode(ms[0].op, ms[0].payload)
      case None => []
      case Some(m) => [m] + UnpackAll(ms[1..])
  }

  lemma DecodePacked(m: Msg)
    ensures Decode(Pack(m).op, Pack(m).payload) == Some(m)
  {
    DecodeOfEncodedMessage(m, []);
    assert Encode(m) + [] == Encode(m);
  }

  lemma {:induction false} UnpackOfPack(ms: seq<Msg>)
    ensures UnpackAll(PackAll(ms)) == ms
  {
    if ms != [] {
      DecodePacked(ms[0]);
      assert PackAll(ms)[1..] == PackAll(ms[1..]);
      UnpackOfPack(ms[1..]);
    }
  }

  /** Encoding, framing, unframing and decoding any list of messages within the
      size cap gives the list back; a frame cut off after them changes nothing. */
  lemma WireDelivers(ms: seq<Msg>, cut: Message, n: nat)
    requires AllSendable(PackAll(ms))
    requires Sendable(cut) && n < |FrameOf(cut)|
    ensures UnpackAll(UnframeAll(FramesOf(PackAll(ms)) + FrameOf(cut)[..n])) == ms
  {
    UnframeOfFrames(PackAll(ms), FrameOf(cut)[..n]);
    UnframeOfPart(cut, n);
    assert PackAll(ms) + [] == PackAll(ms);
    UnpackOfPack(ms);
  }

  // ------------------------------------------------------------- the channel

  /** One direction of the encrypted stream: bytes written and not yet read. */
  class Channel {
    var wire: Bytes
    var broken: bool  // a hard error has happened; nothing moves any more

    constructor ()
      ensures wire == [] && !broken
    {
      wire, broken := [], false;
    }

    // Takes any positive number of the bytes offered, or fails for good.
    method SslWrite(p: Bytes) returns (w: int)
      requires p != []
      modifies this
      ensures w > 0 ==> w <= |p| && wire == old(wire) + p[..w] && broken == old(broken)
      ensures w <= 0 ==> wire == old(wire) && broken
      ensures old(broken) ==> w <= 0
    {
      if broken { return -1; }
      if * {
        broken := true;
        return -1;
      }
      w :| 1 <= w <= |p|;
      wire := wire + p[..w];
    }

    // Hands over any positive number of bytes up to n; none at the end of the
    // stream or after a hard error.
    method SslRead(n: nat) returns (p: Bytes)
      requires n > 0
      modifies this
      ensures |p| <= n && old(wire) == p + wire
      ensures p != [] ==> broken == old(broken)
      ensures p == [] ==> broken || wire == []
    {
      if broken || wire == [] { return []; }
      if * {
        broken := true;
        return [];
      }
      var k: nat :| 1 <= k <= n && k <= |wire|;
      p := wire[..k];
      wire := wire[k..];
    }

    method WriteAll(p: Bytes) returns (ok: bool)
      modifies this
      ensures ok ==> wire == old(wire) + p && broken == old(broken)
      ensures !ok ==> broken && exists n | 0 <= n < |p| :: wire == old(wire) + p[..n]
    {
      var off := 0;
      while off < |p|
        invariant 0 <= off <= |p| && wire == old(wire) + p[..off] && broken == old(broken)
      {
        var w := SslWrite(p[off..]);
        if w <= 0 { return false; }
        assert p[..off] + p[off..][..w] == p[..off + w];
        off := off + w;
      }
      assert p[..off] == p;
      return true;
    }

    method ReadAll(n: nat) returns (ok: bool, p: Bytes)
      modifies this
      ensures ok ==> |p| == n && old(wire) == p + wire && broken == old(broken)
      ensures !ok ==> (broken || |old(wire)| < n) && |p| < n && old(wire) == p + wire
    {
      p := [];
      while |p| < n
        invariant |p| <= n && old(wire) == p + wire && broken == old(broken)
      {
        var r := SslRead(n - |p|);
        if r == [] { return false, p; }
        ghost var before := p;
        p := p + r;
        assert before + (r + wire) == p + wire;
      }
      return true, p;
    }

    /** One frame goes out whole, or an oversize one not at all, or the stream
        breaks after a part of it. */
    method WriteMessage(op: u8, payload: Bytes) returns (ok: bool)
      modifies this
      ensures ok ==> Sendable(Message(op, payload)) && wire == old(wire) + FrameOf(Message(op, payload))
      ensures !ok && !Sendable(Message(op, payload)) ==> wire == old(wire)
      ensures !ok && Sendable(Message(op, payload)) ==>
        var frame := FrameOf(Message(op, payload));
        broken && exists n | 0 <= n < |frame| :: wire == old(wire) + frame[..n]
    {
      var total := 1 + |payload|;
      if total > MAX_MESSAGE_SIZE { return false; }
      var frame := new Buffer();
      frame.AppendU32(total);
      frame.PutBytes([op as byte]);
      frame.PutBytes(payload);
      assert frame.out == FrameOf(Message(op, payload));
      ok := WriteAll(frame.out);
    }

    /** Reading takes exactly one frame off the stream, however the bytes arrive;
        on a sound stream it fails only where there is no frame to read, and a
        failed read has taken some first bytes and changed none. */
    method ReadMessage() returns (r: Option<Message>)
      modifies this
      ensures r.Some? ==> Unframe(old(wire)) == Some((r.value, wire)) && broken == old(broken)
      ensures r.None? ==> broken || Unframe(old(wire)) == None
      ensures exists n | 0 <= n <= |old(wire)| :: wire == old(wire)[n..]
    {
      ghost var all := wire;
      var ok, lenBuf := ReadAll(4);
      assert all[|lenBuf|..] == wire;
      if !ok { return None; }
      var len := LengthOf(lenBuf);
      assert all[..4] == lenBuf;
      if len < 1 || len > MAX_MESSAGE_SIZE { return None; }
      var body;
      ok, body := ReadAll(len);
      TwoReads(all, lenBuf, body, wire);
      if !ok { return None; }
      return Some(Message(body[0] as nat, body[1..]));
    }

    // The length prefix of a frame.
    static method LengthOf(lenBuf: Bytes) returns (len: u32)
      requires |lenBuf| == 4
      ensures len == Value(lenBuf)
    {
      var rd := new ByteReader(lenBuf, [K32]);
      len := rd.RawU32();
      assert lenBuf[0..4] == lenBuf;
    }
  }

  // What two reads one after the other have taken off the stream.
  lemma TwoReads(all: Bytes, lenBuf: Bytes, body: Bytes, wire: Bytes)
    requires |lenBuf| == 4 && all == lenBuf + (body + wire)
    ensures all[4 + |body|..] == wire && all[4..4 + |body|] == body
    ensures body != [] ==> all[5..4 + |body|] == body[1..] && all[4] == body[0]
  {
  }

  // ------------------------------------------------------ concurrent writers

  // A writer inside the write lock, with the number of bytes of its frame written.
  datatype Holder = Holder(writer: nat, msg: Message, off: nat)

  // Threads writing through one lock: what is on the wire, the messages whose
  // write has succeeded in lock order, and the frame a hard error cut off.
  datatype Writers = Writers(wire: Bytes, sent: seq<Message>, holder: Option<Holder>, cut: Option<Holder>)

  datatype WriteStep = Acquire(writer: nat, msg: Message) | Push(n: nat) | Fail | Release

  const NO_WRITERS := Writers([], [], None, None)

  // One step of any thread; None when it cannot be taken.
  function WriterNext(s: Writers, step: WriteStep): Option<Writers> {
    match step
    case Acquire(writer, msg) =>
      if s.holder.None? && Sendable(msg) then Some(s.(holder := Some(Holder(writer, msg, 0)))) else None
    case Push(n) =>
      if s.holder.Some? && s.cut.None? && 1 <= n && s.holder.value.off + n <= |FrameOf(s.holder.value.msg)| then
        var h := s.holder.value;
        Some(s.(wire := s.wire + FrameOf(h.msg)[h.off..h.off + n], holder := Some(h.(off := h.off + n))))
      else None
    case Fail =>
      if s.holder.Some? && s.holder.value.off < |FrameOf(s.holder.value.msg)| then
        Some(s.(holder := None, cut := if s.cut.Some? then s.cut else s.holder))
      else None
    case Release =>
      if s.holder.Some? && s.holder.value.off == |FrameOf(s.holder.value.msg)| then
        Some(s.(holder := None, sent := s.sent + [s.holder.value.msg]))
      else None
  }

  function WritersAfter(steps: seq<WriteStep>): Option<Writers> {
    if steps == [] then Some(NO_WRITERS) else
      var s :- WritersAfter(steps[..|steps| - 1]);
      WriterNext(s, steps[|steps| - 1])
  }

  // The part of a frame on the wire after the whole ones.
  function Loose(s: Writers): Bytes
    requires s.cut.Some? ==> s.cut.value.off <= |FrameOf(s.cut.value.msg)|
    requires s.holder.Some? ==> s.holder.value.off <= |FrameOf(s.holder.value.msg)|
  {
    if s.cut.Some? then FrameOf(s.cut.value.msg)[..s.cut.value.off]
    else if s.holder.Some? then FrameOf(s.holder.value.msg)[..s.holder.value.off]
    else []
  }

  ghost predicate WritersOk(s: Writers) {
    && AllSendable(s.sent)
    && (s.holder.Some? ==> Sendable(s.holder.value.msg) && s.holder.value.off <= |FrameOf(s.holder.value.msg)|)
    && (s.cut.Some? ==> Sendable(s.cut.value.msg) && s.cut.value.off < |FrameOf(s.cut.value.msg)|)
    && (s.cut.Some? && s.holder.Some? ==> s.holder.value.off == 0)
    && s.wire == FramesOf(s.sent) + Loose(s)
  }

  lemma WriterStepKeeps(s: Writers, step: WriteStep)
    requires WritersOk(s) && WriterNext(s, step).Some?
    ensures WritersOk(WriterNext(s, step).value)
  {
    match step
    case Acquire(_, msg) =>
    case Push(n) => PushKeeps(s, n);
    case Fail =>
    case Release => ReleaseKeeps(s);
  }

  lemma PushKeeps(s: Writers, n: nat)
    requires WritersOk(s) && WriterNext(s, Push(n)).Some?
    ensures WritersOk(WriterNext(s, Push(n)).value)
  {
    var frame, off := FrameOf(s.holder.value.msg), s.holder.value.off;
    assert frame[..off] + frame[off..off + n] == frame[..off + n];
    Assoc(FramesOf(s.sent), frame[..off], frame[off..off + n]);
  }

  lemma ReleaseKeeps(s: Writers)
    requires WritersOk(s) && WriterNext(s, Release).Some?
    ensures WritersOk(WriterNext(s, Release).value)
  {
    var msg := s.holder.value.msg;
    FrameSize(msg);
    FramesOfAppend(s.sent, msg);
    assert FrameOf(msg)[..s.holder.value.off] == FrameOf(msg);
    assert FramesOf(s.sent + [msg]) + [] == FramesOf(s.sent + [msg]);
  }

  /** In every interleaving of writers the reader sees whole messages, in the
      order their writers held the lock: those whose write has returned success,
      and at most the one whose frame is fully written and not yet released. */
  lemma {:induction false} WritersDoNotInterleave(steps: seq<WriteStep>)
    requires WritersAfter(steps).Some?
    ensures var s := WritersAfter(steps).value;
      && WritersOk(s)
      && UnframeAll(s.wire) == s.sent
          + if s.cut.None? && s.holder.Some? && s.holder.value.off == |FrameOf(s.holder.value.msg)|
            then [s.holder.value.msg] else []
  {
    var s := WritersAfter(steps).value;
    if steps == [] {
      assert FramesOf([]) + [] == [];
    } else {
      WritersDoNotInterleave(steps[..|steps| - 1]);
      WriterStepKeeps(WritersAfter(steps[..|steps| - 1]).value, steps[|steps| - 1]);
    }
    UnframeOfFrames(s.sent, Loose(s));
    if s.cut.Some? {
      UnframeOfPart(s.cut.value.msg, s.cut.value.off);
    } else if s.holder.Some? {
      var h := s.holder.value;
      if h.off < |FrameOf(h.msg)| {
        UnframeOfPart(h.msg, h.off);
      } else {
        assert Loose(s) == FrameOf(h.msg) + [];
        UnframeOfFrame(h.msg, []);
      }
    }
  }
}
