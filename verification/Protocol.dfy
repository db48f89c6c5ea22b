/**
 The wire contract (common/Protocol.h, common/Protocol.cpp): opcodes, the typed
 messages, and for each of them the encoder and the decoder.

 Per family of messages, Layout and Fields say once which fields a payload
 consists of; the encoders and decoders are the program's own sequences of put
 and get calls, proved against them.  Enumerations travel as one unchecked byte,
 as the casts in the decoders have it.
 */
module Protocol {
  import opened Util

  const MAX_MESSAGE_SIZE: nat := 16 * 1024 * 1024
  const FILE_BLOCK_SIZE: nat := 64 * 1024

  datatype HandshakeMsg =
    | Hello(version: u16, name: Blob)
    | ServerHello(version: u16, name: Blob)
    | AuthRequest(username: Blob, password: Blob)
    | AuthResult(status: u8, grantedRights: u32, sessionId: u64)
    | SessionStart(mode: u8)

  datatype VideoMsg =
    | FrameInfo(sequence: u32, width: u16, height: u16, stride: u32, format: u8, keyframe: bool)
    | FrameData(sequence: u32, offset: u32, data: Blob)
    | FrameEnd(sequence: u32)
    | FrameRect(sequence: u32, x: u16, y: u16, w: u16, h: u16, pixels: Blob)

  datatype InputMsg =
    | InputMouse(x: u16, y: u16, action: u32)
    | InputKey(down: u8, key: u16)

  datatype FileMsg =
    | FileUploadReq(path: Blob, size: u64, sha256: Hash256)
    | FileDownloadReq(path: Blob)
    | FileAccept(transferId: u32, size: u64, sha256: Hash256)
    | FileBlock(transferId: u32, sequence: u32, data: Blob)
    | FileComplete(transferId: u32)
    | FileVerify(transferId: u32, status: u8)
    | FileMove(srcPath: Blob, dstPath: Blob)
    | FileDelete(path: Blob)
    | FileOpResult(status: u8, message: Blob)

  datatype ControlMsg =
    | Error(code: u32, message: Blob)
    | Ping
    | Bye

  datatype Msg =
    | Handshake(handshake: HandshakeMsg)
    | Video(video: VideoMsg)
    | Input(input: InputMsg)
    | File(file: FileMsg)
    | Control(control: ControlMsg)

  function HandshakeOp(m: HandshakeMsg): u8 {
    match m
    case Hello(_, _) => 0x01
    case ServerHello(_, _) => 0x02
    case AuthRequest(_, _) => 0x10
    case AuthResult(_, _, _) => 0x11
    case SessionStart(_) => 0x20
  }

  function HandshakeLayout(op: u8): Option<seq<Kind>> {
    match op
    case 0x01 => Some([K16, KBlob])
    case 0x02 => Some([K16, KBlob])
    case 0x10 => Some([KBlob, KBlob])
    case 0x11 => Some([K8, K32, K64])
    case 0x20 => Some([K8])
    case _ => None
  }

  function HandshakeFields(m: HandshakeMsg): (fs: seq<Field>)
    ensures var ks := HandshakeLayout(HandshakeOp(m)); ks.Some? && Fits(fs, ks.value)
  {
    match m
    case Hello(version, name) => [F16(version), FBlob(name)]
    case ServerHello(version, name) => [F16(version), FBlob(name)]
    case AuthRequest(username, password) => [FBlob(username), FBlob(password)]
    case AuthResult(status, grantedRights, sessionId) => [F8(status), F32(grantedRights), F64(sessionId)]
    case SessionStart(mode) => [F8(mode)]
  }

  function HandshakeFromFields(op: u8, fs: seq<Field>): HandshakeMsg
    requires var ks := HandshakeLayout(op); ks.Some? && Fits(fs, ks.value)
  {
    match op
    case 0x01 => Hello(fs[0].v16, fs[1].blob)
    case 0x02 => ServerHello(fs[0].v16, fs[1].blob)
    case 0x10 => AuthRequest(fs[0].blob, fs[1].blob)
    case 0x11 => AuthResult(fs[0].v8, fs[1].v32, fs[2].v64)
    case 0x20 => SessionStart(fs[0].v8)
  }

  function VideoOp(m: VideoMsg): u8 {
    match m
    case FrameInfo(_, _, _, _, _, _) => 0x30
    case FrameData(_, _, _) => 0x31
    case FrameEnd(_) => 0x32
    case FrameRect(_, _, _, _, _, _) => 0x33
  }

  function VideoLayout(op: u8): Option<seq<Kind>> {
    match op
    case 0x30 => Some([K32, K16, K16, K32, K8, K8])
    case 0x31 => Some([K32, K32, KBlob])
    case 0x32 => Some([K32])
    case 0x33 => Some([K32, K16, K16, K16, K16, KBlob])
    case _ => None
  }

  function VideoFields(m: VideoMsg): (fs: seq<Field>)
    ensures var ks := VideoLayout(VideoOp(m)); ks.Some? && Fits(fs, ks.value)
  {
    match m
    case FrameInfo(sequence, width, height, stride, format, keyframe) =>
      [F32(sequence), F16(width), F16(height), F32(stride), F8(format), F8(if keyframe then 1 else 0)]
    case FrameData(sequence, offset, data) => [F32(sequence), F32(offset), FBlob(data)]
    case FrameEnd(sequence) => [F32(sequence)]
    case FrameRect(sequence, x, y, w, h, pixels) => [F32(sequence), F16(x), F16(y), F16(w), F16(h), FBlob(pixels)]
  }

  function VideoFromFields(op: u8, fs: seq<Field>): VideoMsg
    requires var ks := VideoLayout(op); ks.Some? && Fits(fs, ks.value)
  {
    match op
    case 0x30 => FrameInfo(fs[0].v32, fs[1].v16, fs[2].v16, fs[3].v32, fs[4].v8, fs[5].v8 != 0)
    case 0x31 => FrameData(fs[0].v32, fs[1].v32, fs[2].blob)
    case 0x32 => FrameEnd(fs[0].v32)
    case 0x33 => FrameRect(fs[0].v32, fs[1].v16, fs[2].v16, fs[3].v16, fs[4].v16, fs[5].blob)
  }

  function InputOp(m: InputMsg): u8 {
    match m
    case InputMouse(_, _, _) => 0x40
    case InputKey(_, _) => 0x41
  }

  function InputLayout(op: u8): Option<seq<Kind>> {
    match op
    case 0x40 => Some([K16, K16, K32])
    case 0x41 => Some([K8, K16])
    case _ => None
  }

  function InputFields(m: InputMsg): (fs: seq<Field>)
    ensures var ks := InputLayout(InputOp(m)); ks.Some? && Fits(fs, ks.value)
  {
    match m
    case InputMouse(x, y, action) => [F16(x), F16(y), F32(action)]
    case InputKey(down, key) => [F8(down), F16(key)]
  }

  function InputFromFields(op: u8, fs: seq<Field>): InputMsg
    requires var ks := InputLayout(op); ks.Some? && Fits(fs, ks.value)
  {
    match op
    case 0x40 => InputMouse(fs[0].v16, fs[1].v16, fs[2].v32)
    case 0x41 => InputKey(fs[0].v8, fs[1].v16)
  }

  function FileOp(m: FileMsg): u8 {
    match m
    case FileUploadReq(_, _, _) => 0x50
    case FileDownloadReq(_) => 0x51
    case FileAccept(_, _, _) => 0x52
    case FileBlock(_, _, _) => 0x54
    case FileComplete(_) => 0x55
    case FileVerify(_, _) => 0x56
    case FileMove(_, _) => 0x57
    case FileDelete(_) => 0x58
    case FileOpResult(_, _) => 0x59
  }

  function FileLayout(op: u8): Option<seq<Kind>> {
    match op
    case 0x50 => Some([KBlob, K64, KHash])
    case 0x51 => Some([KBlob])
    case 0x52 => Some([K32, K64, KHash])
    case 0x54 => Some([K32, K32, KBlob])
    case 0x55 => Some([K32])
    case 0x56 => Some([K32, K8])
    case 0x57 => Some([KBlob, KBlob])
    case 0x58 => Some([KBlob])
    case 0x59 => Some([K8, KBlob])
    case _ => None
  }

  function FileFields(m: FileMsg): (fs: seq<Field>)
    ensures var ks := FileLayout(FileOp(m)); ks.Some? && Fits(fs, ks.value)
  {
    match m
    case FileUploadReq(path, size, sha256) => [FBlob(path), F64(size), FHash(sha256)]
    case FileDownloadReq(path) => [FBlob(path)]
    case FileAccept(transferId, size, sha256) => [F32(transferId), F64(size), FHash(sha256)]
    case FileBlock(transferId, sequence, data) => [F32(transferId), F32(sequence), FBlob(data)]
    case FileComplete(transferId) => [F32(transferId)]
    case FileVerify(transferId, status) => [F32(transferId), F8(status)]
    case FileMove(srcPath, dstPath) => [FBlob(srcPath), FBlob(dstPath)]
    case FileDelete(path) => [FBlob(path)]
    case FileOpResult(status, message) => [F8(status), FBlob(message)]
  }

  function FileFromFields(op: u8, fs: seq<Field>): FileMsg
    requires var ks := FileLayout(op); ks.Some? && Fits(fs, ks.value)
  {
    match op
    case 0x50 => FileUploadReq(fs[0].blob, fs[1].v64, fs[2].hash)
    case 0x51 => FileDownloadReq(fs[0].blob)
    case 0x52 => FileAccept(fs[0].v32, fs[1].v64, fs[2].hash)
    case 0x54 => FileBlock(fs[0].v32, fs[1].v32, fs[2].blob)
    case 0x55 => FileComplete(fs[0].v32)
    case 0x56 => FileVerify(fs[0].v32, fs[1].v8)
    case 0x57 => FileMove(fs[0].blob, fs[1].blob)
    case 0x58 => FileDelete(fs[0].blob)
    case 0x59 => FileOpResult(fs[0].v8, fs[1].blob)
  }

  function ControlOp(m: ControlMsg): u8 {
    match m
    case Error(_, _) => 0x70
    case Ping => 0x7e
    case Bye => 0x7f
  }

  function ControlLayout(op: u8): Option<seq<Kind>> {
    match op
    case 0x70 => Some([K32, KBlob])
    case 0x7e => Some([])
    case 0x7f => Some([])
    case _ => None
  }

  function ControlFields(m: ControlMsg): (fs: seq<Field>)
    ensures var ks := ControlLayout(ControlOp(m)); ks.Some? && Fits(fs, ks.value)
  {
    match m
    case Error(code, message) => [F32(code), FBlob(message)]
    case Ping => []
    case Bye => []
  }

  function ControlFromFields(op: u8, fs: seq<Field>): ControlMsg
    requires var ks := ControlLayout(op); ks.Some? && Fits(fs, ks.value)
  {
    match op
    case 0x70 => Error(fs[0].v32, fs[1].blob)
    case 0x7e => Ping
    case 0x7f => Bye
  }

  function OpOf(m: Msg): u8 {
    match m
    case Handshake(x) => HandshakeOp(x)
    case Video(x) => VideoOp(x)
    case Input(x) => InputOp(x)
    case File(x) => FileOp(x)
    case Control(x) => ControlOp(x)
  }

  // The fields of each payload, by opcode; None for an opcode that has no message.
  function Layout(op: u8): Option<seq<Kind>> {
    if op < 0x30 then HandshakeLayout(op)
    else if op < 0x40 then VideoLayout(op)
    else if op < 0x50 then InputLayout(op)
    else if op < 0x70 then FileLayout(op)
    else ControlLayout(op)
  }

  function Fields(m: Msg): (fs: seq<Field>)
    ensures var ks := Layout(OpOf(m)); ks.Some? && Fits(fs, ks.value)
  {
    match m
    case Handshake(x) => HandshakeFields(x)
    case Video(x) => VideoFields(x)
    case Input(x) => InputFields(x)
    case File(x) => FileFields(x)
    case Control(x) => ControlFields(x)
  }

  function FromFields(op: u8, fs: seq<Field>): Msg
    requires var ks := Layout(op); ks.Some? && Fits(fs, ks.value)
  {
    if op < 0x30 then Handshake(HandshakeFromFields(op, fs))
    else if op < 0x40 then Video(VideoFromFields(op, fs))
    else if op < 0x50 then Input(InputFromFields(op, fs))
    else if op < 0x70 then File(FileFromFields(op, fs))
    else Control(ControlFromFields(op, fs))
  }

  function Encode(m: Msg): Bytes { EncodeFields(Fields(m)) }

  function Decode(op: u8, p: Bytes): Option<Msg> {
    var ks :- Layout(op);
    var (fs, _) :- DecodeFields(ks, p);
    EncodeOfDecode(ks, p);
    Some(FromFields(op, fs))
  }

  lemma FieldsGiveMessage(m: Msg)
    ensures FromFields(OpOf(m), Fields(m)) == m
  {
    match m
    case Handshake(x) =>
    case Video(x) =>
    case Input(x) =>
    case File(x) =>
    case Control(x) =>
  }

  /** Every message survives the trip, and a decoder ignores what follows its message. */
  lemma DecodeOfEncodedMessage(m: Msg, trailing: Bytes)
    ensures Decode(OpOf(m), Encode(m) + trailing) == Some(m)
  {
    DecodeOfEncode(Layout(OpOf(m)).value, Fields(m), trailing);
    FieldsGiveMessage(m);
  }

  /** A payload cut short anywhere is refused. */
  lemma TruncatedMessageFails(m: Msg, n: nat)
    requires n < |Encode(m)|
    ensures Decode(OpOf(m), Encode(m)[..n]) == None
  {
    assert Encode(m) == Encode(m)[..n] + Encode(m)[n..];
    ProperPrefixFails(Layout(OpOf(m)).value, Fields(m), Encode(m)[..n], Encode(m)[n..]);
  }

  // ---------------------------------------------------------------- encoders

  method EncodeHello(version: u16, name: Blob) returns (b: Bytes)
    ensures b == Encode(Handshake(Hello(version, name)))
  {
    var buf := new Buffer();
    buf.PutU16(version);
    buf.PutBlob(name);
    assert buf.fields == HandshakeFields(Hello(version, name));
    return buf.out;
  }

  method EncodeServerHello(version: u16, name: Blob) returns (b: Bytes)
    ensures b == Encode(Handshake(ServerHello(version, name)))
  {
    var buf := new Buffer();
    buf.PutU16(version);
    buf.PutBlob(name);
    assert buf.fields == HandshakeFields(ServerHello(version, name));
    return buf.out;
  }

  method EncodeAuthRequest(username: Blob, password: Blob) returns (b: Bytes)
    ensures b == Encode(Handshake(AuthRequest(username, password)))
  {
    var buf := new Buffer();
    buf.PutBlob(username);
    buf.PutBlob(password);
    assert buf.fields == HandshakeFields(AuthRequest(username, password));
    return buf.out;
  }

  method EncodeAuthResult(status: u8, grantedRights: u32, sessionId: u64) returns (b: Bytes)
    ensures b == Encode(Handshake(AuthResult(status, grantedRights, sessionId)))
  {
    var buf := new Buffer();
    buf.PutU8(status);
    buf.PutU32(grantedRights);
    buf.PutU64(sessionId);
    assert buf.fields == HandshakeFields(AuthResult(status, grantedRights, sessionId));
    return buf.out;
  }

  method EncodeSessionStart(mode: u8) returns (b: Bytes)
    ensures b == Encode(Handshake(SessionStart(mode)))
  {
    var buf := new Buffer();
    buf.PutU8(mode);
    assert buf.fields == HandshakeFields(SessionStart(mode));
    return buf.out;
  }

  method EncodeFrameInfo(sequence: u32, width: u16, height: u16, stride: u32, format: u8, keyframe: bool)
    returns (b: Bytes)
    ensures b == Encode(Video(FrameInfo(sequence, width, height, stride, format, keyframe)))
  {
    var buf := new Buffer();
    buf.PutU32(sequence);
    buf.PutU16(width);
    buf.PutU16(height);
    buf.PutU32(stride);
    buf.PutU8(format);
    buf.PutU8(if keyframe then 1 else 0);
    assert buf.fields == VideoFields(FrameInfo(sequence, width, height, stride, format, keyframe));
    return buf.out;
  }

  method EncodeFrameData(sequence: u32, offset: u32, data: Blob) returns (b: Bytes)
    ensures b == Encode(Video(FrameData(sequence, offset, data)))
  {
    var buf := new Buffer();
    buf.PutU32(sequence);
    buf.PutU32(offset);
    buf.PutBlob(data);
    assert buf.fields == VideoFields(FrameData(sequence, offset, data));
    return buf.out;
  }

  method EncodeFrameEnd(sequence: u32) returns (b: Bytes)
    ensures b == Encode(Video(FrameEnd(sequence)))
  {
    var buf := new Buffer();
    buf.PutU32(sequence);
    assert buf.fields == VideoFields(FrameEnd(sequence));
    return buf.out;
  }

  method EncodeFrameRect(sequence: u32, x: u16, y: u16, w: u16, h: u16, pixels: Blob) returns (b: Bytes)
    ensures b == Encode(Video(FrameRect(sequence, x, y, w, h, pixels)))
  {
    var buf := new Buffer();
    buf.PutU32(sequence);
    buf.PutU16(x);
    buf.PutU16(y);
    buf.PutU16(w);
    buf.PutU16(h);
    buf.PutBlob(pixels);
    assert buf.fields == VideoFields(FrameRect(sequence, x, y, w, h, pixels));
    return buf.out;
  }

  method EncodeInputMouse(x: u16, y: u16, action: u32) returns (b: Bytes)
    ensures b == Encode(Input(InputMouse(x, y, action)))
  {
    var buf := new Buffer();
    buf.PutU16(x);
    buf.PutU16(y);
    buf.PutU32(action);
    assert buf.fields == InputFields(InputMouse(x, y, action));
    return buf.out;
  }

  method EncodeInputKey(down: u8, key: u16) returns (b: Bytes)
    ensures b == Encode(Input(InputKey(down, key)))
  {
    var buf := new Buffer();
    buf.PutU8(down);
    buf.PutU16(key);
    assert buf.fields == InputFields(InputKey(down, key));
    return buf.out;
  }

  method EncodeFileUploadReq(path: Blob, size: u64, sha256: Hash256) returns (b: Bytes)
    ensures b == Encode(File(FileUploadReq(path, size, sha256)))
  {
    var buf := new Buffer();
    buf.PutBlob(path);
    buf.PutU64(size);
    buf.PutHash(sha256);
    assert buf.fields == FileFields(FileUploadReq(path, size, sha256));
    return buf.out;
  }

  method EncodeFileDownloadReq(path: Blob) returns (b: Bytes)
    ensures b == Encode(File(FileDownloadReq(path)))
  {
    var buf := new Buffer();
    buf.PutBlob(path);
    assert buf.fields == FileFields(FileDownloadReq(path));
    return buf.out;
  }

  method EncodeFileAccept(transferId: u32, size: u64, sha256: Hash256) returns (b: Bytes)
    ensures b == Encode(File(FileAccept(transferId, size, sha256)))
  {
    var buf := new Buffer();
    buf.PutU32(transferId);
    buf.PutU64(size);
    buf.PutHash(sha256);
    assert buf.fields == FileFields(FileAccept(transferId, size, sha256));
    return buf.out;
  }

  method EncodeFileBlock(transferId: u32, sequence: u32, data: Blob) returns (b: Bytes)
    ensures b == Encode(File(FileBlock(transferId, sequence, data)))
  {
    var buf := new Buffer();
    buf.PutU32(transferId);
    buf.PutU32(sequence);
    buf.PutBlob(data);
    assert buf.fields == FileFields(FileBlock(transferId, sequence, data));
    return buf.out;
  }

  method EncodeFileComplete(transferId: u32) returns (b: Bytes)
    ensures b == Encode(File(FileComplete(transferId)))
  {
    var buf := new Buffer();
    buf.PutU32(transferId);
    assert buf.fields == FileFields(FileComplete(transferId));
    return buf.out;
  }

  method EncodeFileVerify(transferId: u32, status: u8) returns (b: Bytes)
    ensures b == Encode(File(FileVerify(transferId, status)))
  {
    var buf := new Buffer();
    buf.PutU32(transferId);
    buf.PutU8(status);
    assert buf.fields == FileFields(FileVerify(transferId, status));
    return buf.out;
  }

  method EncodeFileMove(srcPath: Blob, dstPath: Blob) returns (b: Bytes)
    ensures b == Encode(File(FileMove(srcPath, dstPath)))
  {
    var buf := new Buffer();
    buf.PutBlob(srcPath);
    buf.PutBlob(dstPath);
    assert buf.fields == FileFields(FileMove(srcPath, dstPath));
    return buf.out;
  }

  method EncodeFileDelete(path: Blob) returns (b: Bytes)
    ensures b == Encode(File(FileDelete(path)))
  {
    var buf := new Buffer();
    buf.PutBlob(path);
    assert buf.fields == FileFields(FileDelete(path));
    return buf.out;
  }

  method EncodeFileOpResult(status: u8, message: Blob) returns (b: Bytes)
    ensures b == Encode(File(FileOpResult(status, message)))
  {
    var buf := new Buffer();
    buf.PutU8(status);
    buf.PutBlob(message);
    assert buf.fields == FileFields(FileOpResult(status, message));
    return buf.out;
  }

  method EncodeError(code: u32, message: Blob) returns (b: Bytes)
    ensures b == Encode(Control(Error(code, message)))
  {
    var buf := new Buffer();
    buf.PutU32(code);
    buf.PutBlob(message);
    assert buf.fields == ControlFields(Error(code, message));
    return buf.out;
  }

  // ---------------------------------------------------------------- decoders

  method DecodeHello(p: Bytes) returns (m: Option<Msg>)
    ensures m == Decode(0x01, p)
  {
    var r := new ByteReader(p, HandshakeLayout(0x01).value);
    var version :- r.U16();
    var name :- r.Blob();
    r.Done();
    return Some(Handshake(Hello(version, name)));
  }

  method DecodeServerHello(p: Bytes) returns (m: Option<Msg>)
    ensures m == Decode(0x02, p)
  {
    var r := new ByteReader(p, HandshakeLayout(0x02).value);
    var version :- r.U16();
    var name :- r.Blob();
    r.Done();
    return Some(Handshake(ServerHello(version, name)));
  }

  method DecodeAuthRequest(p: Bytes) returns (m: Option<Msg>)
    ensures m == Decode(0x10, p)
  {
    var r := new ByteReader(p, HandshakeLayout(0x10).value);
    var username :- r.Blob();
    var password :- r.Blob();
    r.Done();
    return Some(Handshake(AuthRequest(username, password)));
  }

  method DecodeAuthResult(p: Bytes) returns (m: Option<Msg>)
    ensures m == Decode(0x11, p)
  {
    var r := new ByteReader(p, HandshakeLayout(0x11).value);
    var status :- r.U8();
    var grantedRights :- r.U32();
    var sessionId :- r.U64();
    r.Done();
    return Some(Handshake(AuthResult(status, grantedRights, sessionId)));
  }

  method DecodeSessionStart(p: Bytes) returns (m: Option<Msg>)
    ensures m == Decode(0x20, p)
  {
    var r := new ByteReader(p, HandshakeLayout(0x20).value);
    var mode :- r.U8();
    r.Done();
    return Some(Handshake(SessionStart(mode)));
  }

  method DecodeFrameInfo(p: Bytes) returns (m: Option<Msg>)
    ensures m == Decode(0x30, p)
  {
    var r := new ByteReader(p, VideoLayout(0x30).value);
    var sequence :- r.U32();
    var width :- r.U16();
    var height :- r.U16();
    var stride :- r.U32();
    var format :- r.U8();
    var keyframe :- r.U8();
    r.Done();
    return Some(Video(FrameInfo(sequence, width, height, stride, format, keyframe != 0)));
  }

  method DecodeFrameData(p: Bytes) returns (m: Option<Msg>)
    ensures m == Decode(0x31, p)
  {
    var r := new ByteReader(p, VideoLayout(0x31).value);
    var sequence :- r.U32();
    var offset :- r.U32();
    var data :- r.Blob();
    r.Done();
    return Some(Video(FrameData(sequence, offset, data)));
  }

  method DecodeFrameRect(p: Bytes) returns (m: Option<Msg>)
    ensures m == Decode(0x33, p)
  {
    var r := new ByteReader(p, VideoLayout(0x33).value);
    var sequence :- r.U32();
    var x :- r.U16();
    var y :- r.U16();
    var w :- r.U16();
    var h :- r.U16();
    var pixels :- r.Blob();
    r.Done();
    return Some(Video(FrameRect(sequence, x, y, w, h, pixels)));
  }

  method DecodeInputMouse(p: Bytes) returns (m: Option<Msg>)
    ensures m == Decode(0x40, p)
  {
    var r := new ByteReader(p, InputLayout(0x40).value);
    var x :- r.U16();
    var y :- r.U16();
    var action :- r.U32();
    r.Done();
    return Some(Input(InputMouse(x, y, action)));
  }

  method DecodeInputKey(p: Bytes) returns (m: Option<Msg>)
    ensures m == Decode(0x41, p)
  {
    var r := new ByteReader(p, InputLayout(0x41).value);
    var down :- r.U8();
    var key :- r.U16();
    r.Done();
    return Some(Input(InputKey(down, key)));
  }

  method DecodeFileUploadReq(p: Bytes) returns (m: Option<Msg>)
    ensures m == Decode(0x50, p)
  {
    var r := new ByteReader(p, FileLayout(0x50).value);
    var path :- r.Blob();
    var size :- r.U64();
    var sha256 :- r.Hash();
    r.Done();
    return Some(File(FileUploadReq(path, size, sha256)));
  }

  method DecodeFileDownloadReq(p: Bytes) returns (m: Option<Msg>)
    ensures m == Decode(0x51, p)
  {
    var r := new ByteReader(p, FileLayout(0x51).value);
    var path :- r.Blob();
    r.Done();
    return Some(File(FileDownloadReq(path)));
  }

  method DecodeFileAccept(p: Bytes) returns (m: Option<Msg>)
    ensures m == Decode(0x52, p)
  {
    var r := new ByteReader(p, FileLayout(0x52).value);
    var transferId :- r.U32();
    var size :- r.U64();
    var sha256 :- r.Hash();
    r.Done();
    return Some(File(FileAccept(transferId, size, sha256)));
  }

  method DecodeFileBlock(p: Bytes) returns (m: Option<Msg>)
    ensures m == Decode(0x54, p)
  {
    var r := new ByteReader(p, FileLayout(0x54).value);
    var transferId :- r.U32();
    var sequence :- r.U32();
    var data :- r.Blob();
    r.Done();
    return Some(File(FileBlock(transferId, sequence, data)));
  }

  method DecodeFileComplete(p: Bytes) returns (m: Option<Msg>)
    ensures m == Decode(0x55, p)
  {
    var r := new ByteReader(p, FileLayout(0x55).value);
    var transferId :- r.U32();
    r.Done();
    return Some(File(FileComplete(transferId)));
  }

  method DecodeFileVerify(p: Bytes) returns (m: Option<Msg>)
    ensures m == Decode(0x56, p)
  {
    var r := new ByteReader(p, FileLayout(0x56).value);
    var transferId :- r.U32();
    var status :- r.U8();
    r.Done();
    return Some(File(FileVerify(transferId, status)));
  }

  method DecodeFileMove(p: Bytes) returns (m: Option<Msg>)
    ensures m == Decode(0x57, p)
  {
    var r := new ByteReader(p, FileLayout(0x57).value);
    var srcPath :- r.Blob();
    var dstPath :- r.Blob();
    r.Done();
    return Some(File(FileMove(srcPath, dstPath)));
  }

  method DecodeFileDelete(p: Bytes) returns (m: Option<Msg>)
    ensures m == Decode(0x58, p)
  {
    var r := new ByteReader(p, FileLayout(0x58).value);
    var path :- r.Blob();
    r.Done();
    return Some(File(FileDelete(path)));
  }

  method DecodeFileOpResult(p: Bytes) returns (m: Option<Msg>)
    ensures m == Decode(0x59, p)
  {
    var r := new ByteReader(p, FileLayout(0x59).value);
    var status :- r.U8();
    var message :- r.Blob();
    r.Done();
    return Some(File(FileOpResult(status, message)));
  }

  method DecodeError(p: Bytes) returns (m: Option<Msg>)
    ensures m == Decode(0x70, p)
  {
    var r := new ByteReader(p, ControlLayout(0x70).value);
    var code :- r.U32();
    var message :- r.Blob();
    r.Done();
    return Some(Control(Error(code, message)));
  }

}
