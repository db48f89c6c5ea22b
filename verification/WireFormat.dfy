/**
 The bytes of every message (common/Protocol.h, common/Protocol.cpp): its opcode, and its
 fields one after another, most significant byte first, texts and data after their length.
 */
module WireFormat {
  import opened Util
  import opened Protocol
  import opened Transport

  // Text or data after its length.
  function Sized(b: Blob): Bytes { BigEndian(4, |b|) + b }

  function Flag(b: bool): nat { if b then 1 else 0 }

  lemma OneField(a: Field)
    ensures EncodeFields([a]) == EncodeField(a)
  {
    assert EncodeField(a) + [] == EncodeField(a);
  }

  lemma FirstField(a: Field, fs: seq<Field>)
    ensures EncodeFields([a] + fs) == EncodeField(a) + EncodeFields(fs)
  {
  }

  lemma TwoFields(a: Field, b: Field)
    ensures EncodeFields([a, b]) == EncodeField(a) + EncodeField(b)
  {
    FirstField(a, [b]);
    OneField(b);
    assert [a] + [b] == [a, b];
  }

  lemma ThreeFields(a: Field, b: Field, c: Field)
    ensures EncodeFields([a, b, c]) == EncodeField(a) + (EncodeField(b) + EncodeField(c))
  {
    FirstField(a, [b, c]);
    TwoFields(b, c);
    assert [a] + [b, c] == [a, b, c];
  }

  lemma SixFields(a: Field, b: Field, c: Field, d: Field, e: Field, f: Field)
    ensures EncodeFields([a, b, c, d, e, f])
         == EncodeField(a) + (EncodeField(b) + (EncodeField(c) + (EncodeField(d) + (EncodeField(e) + EncodeField(f)))))
  {
    FirstField(a, [b, c, d, e, f]);
    FirstField(b, [c, d, e, f]);
    FirstField(c, [d, e, f]);
    ThreeFields(d, e, f);
    assert [a] + [b, c, d, e, f] == [a, b, c, d, e, f];
    assert [b] + [c, d, e, f] == [b, c, d, e, f] && [c] + [d, e, f] == [c, d, e, f];
  }

  lemma HandshakeBytes(m: HandshakeMsg)
    ensures var p := Pack(Handshake(m));
      match m
      case Hello(version, name) => p == Message(0x01, BigEndian(2, version) + Sized(name))
      case ServerHello(version, name) => p == Message(0x02, BigEndian(2, version) + Sized(name))
      case AuthRequest(username, password) => p == Message(0x10, Sized(username) + Sized(password))
      case AuthResult(status, rights, sessionId) =>
        p == Message(0x11, BigEndian(1, status) + (BigEndian(4, rights) + BigEndian(8, sessionId)))
      case SessionStart(mode) => p == Message(0x20, BigEndian(1, mode))
  {
    match m
    case Hello(version, name) => TwoFields(F16(version), FBlob(name));
    case ServerHello(version, name) => TwoFields(F16(version), FBlob(name));
    case AuthRequest(username, password) => TwoFields(FBlob(username), FBlob(password));
    case AuthResult(status, rights, sessionId) => ThreeFields(F8(status), F32(rights), F64(sessionId));
    case SessionStart(mode) => OneField(F8(mode));
  }

  lemma VideoBytes(m: VideoMsg)
    ensures var p := Pack(Video(m));
      match m
      case FrameInfo(sequence, width, height, stride, format, keyframe) =>
        p == Message(0x30, BigEndian(4, sequence) + (BigEndian(2, width) + (BigEndian(2, height)
                           + (BigEndian(4, stride) + (BigEndian(1, format) + BigEndian(1, Flag(keyframe)))))))
      case FrameData(sequence, offset, data) =>
        p == Message(0x31, BigEndian(4, sequence) + (BigEndian(4, offset) + Sized(data)))
      case FrameEnd(sequence) => p == Message(0x32, BigEndian(4, sequence))
      case FrameRect(sequence, x, y, w, h, pixels) =>
        p == Message(0x33, BigEndian(4, sequence) + (BigEndian(2, x) + (BigEndian(2, y)
                           + (BigEndian(2, w) + (BigEndian(2, h) + Sized(pixels))))))
  {
    match m
    case FrameInfo(sequence, width, height, stride, format, keyframe) =>
      SixFields(F32(sequence), F16(width), F16(height), F32(stride), F8(format), F8(Flag(keyframe)));
    case FrameData(sequence, offset, data) => ThreeFields(F32(sequence), F32(offset), FBlob(data));
    case FrameEnd(sequence) => OneField(F32(sequence));
    case FrameRect(sequence, x, y, w, h, pixels) =>
      SixFields(F32(sequence), F16(x), F16(y), F16(w), F16(h), FBlob(pixels));
  }

  lemma InputBytes(m: InputMsg)
    ensures var p := Pack(Input(m));
      match m
      case InputMouse(x, y, action) => p == Message(0x40, BigEndian(2, x) + (BigEndian(2, y) + BigEndian(4, action)))
      case InputKey(down, key) => p == Message(0x41, BigEndian(1, down) + BigEndian(2, key))
  {
    match m
    case InputMouse(x, y, action) => ThreeFields(F16(x), F16(y), F32(action));
    case InputKey(down, key) => TwoFields(F8(down), F16(key));
  }

  lemma FileBytes(m: FileMsg)
    ensures var p := Pack(File(m));
      match m
      case FileUploadReq(path, size, sha256) => p == Message(0x50, Sized(path) + (BigEndian(8, size) + sha256))
      case FileDownloadReq(path) => p == Message(0x51, Sized(path))
      case FileAccept(id, size, sha256) => p == Message(0x52, BigEndian(4, id) + (BigEndian(8, size) + sha256))
      case FileBlock(id, sequence, data) =>
        p == Message(0x54, BigEndian(4, id) + (BigEndian(4, sequence) + Sized(data)))
      case FileComplete(id) => p == Message(0x55, BigEndian(4, id))
      case FileVerify(id, status) => p == Message(0x56, BigEndian(4, id) + BigEndian(1, status))
      case FileMove(src, dst) => p == Message(0x57, Sized(src) + Sized(dst))
      case FileDelete(path) => p == Message(0x58, Sized(path))
      case FileOpResult(status, text) => p == Message(0x59, BigEndian(1, status) + Sized(text))
  {
    match m
    case FileUploadReq(path, size, sha256) => ThreeFields(FBlob(path), F64(size), FHash(sha256));
    case FileDownloadReq(path) => OneField(FBlob(path));
    case FileAccept(id, size, sha256) => ThreeFields(F32(id), F64(size), FHash(sha256));
    case FileBlock(id, sequence, data) => ThreeFields(F32(id), F32(sequence), FBlob(data));
    case FileComplete(id) => OneField(F32(id));
    case FileVerify(id, status) => TwoFields(F32(id), F8(status));
    case FileMove(src, dst) => TwoFields(FBlob(src), FBlob(dst));
    case FileDelete(path) => OneField(FBlob(path));
    case FileOpResult(status, text) => TwoFields(F8(status), FBlob(text));
  }

  lemma ControlBytes(m: ControlMsg)
    ensures var p := Pack(Control(m));
      match m
      case Error(code, text) => p == Message(0x70, BigEndian(4, code) + Sized(text))
      case Ping => p == Message(0x7e, [])
      case Bye => p == Message(0x7f, [])
  {
    match m
    case Error(code, text) => TwoFields(F32(code), FBlob(text));
    case Ping =>
    case Bye =>
  }

  // ----------------------------------------------------------- what is passed over

  // The opcodes that have a message.
  const OPCODES: set<u8> := {0x01, 0x02, 0x10, 0x11, 0x20, 0x30, 0x31, 0x32, 0x33, 0x40, 0x41, 0x50, 0x51, 0x52,
                             0x54, 0x55, 0x56, 0x57, 0x58, 0x59, 0x70, 0x7e, 0x7f}

  lemma UnpackFirst(m: Msg, rest: seq<Message>)
    ensures UnpackAll([Pack(m)] + rest) == [m] + UnpackAll(rest)
  {
    DecodePacked(m);
    assert ([Pack(m)] + rest)[1..] == rest;
  }

  lemma {:induction false} UnpackOn(ms: seq<Msg>, rest: seq<Message>)
    ensures UnpackAll(PackAll(ms) + rest) == ms + UnpackAll(rest)
  {
    if ms == [] {
      assert PackAll(ms) + rest == rest;
    } else {
      var more := PackAll(ms[1..]) + rest;
      assert PackAll(ms) + rest == [Pack(ms[0])] + more by { Assoc([Pack(ms[0])], PackAll(ms[1..]), rest); }
      UnpackFirst(ms[0], more);
      UnpackOn(ms[1..], rest);
      Assoc([ms[0]], ms[1..], UnpackAll(rest));
      assert [ms[0]] + ms[1..] == ms;
    }
  }

  lemma KnownOpcodes(op: u8)
    ensures op in OPCODES <==> Layout(op).Some?
  {
  }

  lemma UnpackUnread(m: Message, rest: seq<Message>)
    requires m.op < 0x100
    ensures m.op !in OPCODES ==> UnpackAll([m] + rest) == UnpackAll(rest)
    ensures m.op in OPCODES && Decode(m.op, m.payload) == None ==> UnpackAll([m] + rest) == []
  {
    KnownOpcodes(m.op);
    assert ([m] + rest)[1..] == rest;
  }

  /** Among any messages, one of an unknown opcode is passed over, and one that cannot be decoded
      ends the reading. */
  lemma UnknownIsPassedOver(ms: seq<Msg>, m: Message, rest: seq<Message>)
    requires m.op < 0x100
    ensures m.op !in OPCODES ==> UnpackAll(PackAll(ms) + ([m] + rest)) == ms + UnpackAll(rest)
    ensures m.op in OPCODES && Decode(m.op, m.payload) == None ==> UnpackAll(PackAll(ms) + ([m] + rest)) == ms
  {
    UnpackOn(ms, [m] + rest);
    UnpackUnread(m, rest);
    assert ms + [] == ms;
  }

  // ------------------------------------------------------------------ framing

  /** A frame is four bytes of length, which count the opcode and the payload, the opcode and the
      payload; and what announces no opcode, or more than the cap, is refused unread. */
  lemma FramesAreBounded(wire: Bytes)
    requires |wire| >= 4
    ensures Value(wire[..4]) < 1 || Value(wire[..4]) > 16 * 1024 * 1024 ==> Unframe(wire) == None
    ensures Unframe(wire).Some? ==>
      var (m, rest) := Unframe(wire).value;
      1 + |m.payload| == Value(wire[..4]) && wire == BigEndian(4, 1 + |m.payload|) + [m.op as byte] + m.payload + rest
  {
    if Unframe(wire).Some? {
      var (m, rest) := Unframe(wire).value;
      BigEndianOfValue(wire[..4]);
      assert wire == wire[..4] + [wire[4]] + wire[5..4 + Value(wire[..4])] + wire[4 + Value(wire[..4])..];
    }
  }

  /** The sender refuses exactly what no receiver would take: a message goes out, and comes in as it
      was, if and only if opcode and payload are at most 16 MiB. */
  lemma SentExactlyWhenTaken(m: Message, rest: Bytes)
    ensures Sendable(m) <==> 1 + |m.payload| <= 16 * 1024 * 1024
    ensures Sendable(m) <==> Unframe(FrameOf(m) + rest) == Some((m, rest))
  {
    if Sendable(m) { UnframeOfFrame(m, rest); }
    if Unframe(FrameOf(m) + rest) == Some((m, rest)) { FramesAreBounded(FrameOf(m) + rest); }
  }
}
