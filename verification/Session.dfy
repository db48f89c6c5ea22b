/**
 One server session (server/ServerApp.cpp, session): admission, the message
 handler with its upload transactions, the rows it logs, and the clean-up.

 The disk is a map from path to content; `resolve` is the sandbox's partial
 function from the path a client names to a path on disk.  What the operating
 system refuses is an input of each step.
 */
module Session {
  import opened Util
  import opened Protocol
  import opened RightsMask
  import Audit
  import Security
  import Streamer

  type Disk = map<string, Bytes>
  type Resolver = Bytes -> Option<string>

  const PART: string := ".part"

  const FULL_CONTROL: u8 := 1
  const VIEW_ONLY: u8 := 0
  const FILE_ONLY: u8 := 2

  // FileOpStatus
  const ST_OK: u8 := 0
  const ST_DENIED: u8 := 1
  const ST_NOT_FOUND: u8 := 2
  const ST_HASH_MISMATCH: u8 := 3
  const ST_IO_ERROR: u8 := 4
  const ST_BAD_PATH: u8 := 6

  // --------------------------------------------------------------------- state

  datatype Upload = Upload(finalPath: string, tempPath: string, expected: u64, declared: Hash256,
                           received: nat, hashed: Bytes)

  // What an audit row says of a file operation: the paths it names and its outcome.
  datatype Target = NoTarget | One(path: string) | Two(src: string, dst: string) | Asked(names: seq<Bytes>)
  datatype Result = OK | DENIED | FAIL | MISMATCH | IO_ERROR
  datatype Row = Row(action: Audit.AuditAction, target: Target, result: Result, digest: Option<Hash256>)

  datatype State = State(disk: Disk, uploads: map<u32, Upload>, nextId: u32,
                         rows: seq<Row>, replies: seq<Msg>, injected: seq<InputMsg>)

  // What the session was granted, and the surroundings it runs in.
  datatype Setting = Setting(rights: Rights, mode: u8, resolve: Resolver, sha: Sha256)

  // Whether the operating system lets a file be opened, renamed, removed.
  datatype Os = Os(open: bool, rename: bool, remove: bool)

  function Fresh(disk: Disk): State { State(disk, map[], 1, [], [], []) }

  predicate CanControl(g: Setting) { g.mode == FULL_CONTROL && HasRight(g.rights, SCREEN_CONTROL) }

  predicate HasView(rights: Rights) { HasRight(rights, SCREEN_CONTROL) || HasRight(rights, SCREEN_VIEW) }

  predicate CanView(g: Setting) { g.mode != FILE_ONLY && HasView(g.rights) }

  predicate CanTransfer(g: Setting) { HasRight(g.rights, FILE_TRANSFER) }

  // ------------------------------------------------------------------ the disk

  // Writing at a position of an open file, extending it as needed.
  function WriteAt(content: Bytes, pos: nat, data: Bytes): Bytes {
    var padded := if |content| < pos then content + Zeros(pos - |content|) else content;
    padded[..pos] + data + if pos + |data| <= |padded| then padded[pos + |data|..] else []
  }

  function Store(disk: Disk, path: string, pos: nat, data: Bytes): Disk {
    if path in disk then disk[path := WriteAt(disk[path], pos, data)] else disk
  }

  function Rename(disk: Disk, src: string, dst: string): Disk
    requires src in disk
  {
    (disk - {src})[dst := disk[src]]
  }

  // --------------------------------------------------------------- the handler

  function Reply(s: State, status: u8, m: Blob): State {
    s.(replies := s.replies + [File(FileOpResult(status, m))])
  }

  function Logged(s: State, row: Row): State { s.(rows := s.rows + [row]) }

  function Refuse(s: State): State {
    Reply(Logged(s, Row(Audit.PermissionDenied, NoTarget, DENIED, None)), ST_DENIED, [])
  }

  function RejectPath(s: State, action: Audit.AuditAction, names: seq<Bytes>): State {
    Reply(Logged(s, Row(action, Asked(names), DENIED, None)), ST_BAD_PATH, [])
  }

  function Next(id: u32): u32 { (id + 1) % 0x1_0000_0000 }

  // An acceptance of an upload announces no hash.
  function NoHash(): Hash256 { seq(32, _ => 0) }

  function OnUploadReq(g: Setting, s: State, path: Blob, size: u64, declared: Hash256, os: Os): State {
    if !CanTransfer(g) then Refuse(s) else
      match g.resolve(path)
      case None => RejectPath(s, Audit.FileUpload, [path])
      case Some(dest) =>
        if !os.open then Reply(s, ST_IO_ERROR, []) else
          var temp := dest + PART;
          s.(disk := s.disk[temp := []],
             uploads := s.uploads[s.nextId := Upload(dest, temp, size, declared, 0, [])],
             nextId := Next(s.nextId),
             replies := s.replies + [File(FileAccept(s.nextId, 0, NoHash()))])
  }

  function OnBlock(s: State, id: u32, data: Blob): State {
    if id !in s.uploads then s else
      var u := s.uploads[id];
      s.(disk := Store(s.disk, u.tempPath, u.received, data),
         uploads := s.uploads[id := u.(received := u.received + |data|, hashed := u.hashed + data)])
  }

  function Verified(s: State, id: u32, status: u8, row: Row): State {
    Logged(s.(uploads := s.uploads - {id}, replies := s.replies + [File(FileVerify(id, status))]), row)
  }

  function OnComplete(g: Setting, s: State, id: u32, os: Os): State {
    if id !in s.uploads then s else
      var u := s.uploads[id];
      var actual := g.sha(u.hashed);
      var without := if os.remove then s.disk - {u.tempPath} else s.disk;
      if u.received == u.expected && actual == u.declared then
        if u.tempPath in s.disk && os.rename then
          Verified(s.(disk := Rename(s.disk, u.tempPath, u.finalPath)), id, ST_OK,
                   Row(Audit.FileUpload, One(u.finalPath), OK, Some(actual)))
        else
          Verified(s.(disk := without), id, ST_IO_ERROR, Row(Audit.FileUpload, One(u.finalPath), IO_ERROR, None))
      else
        Verified(s.(disk := without), id, ST_HASH_MISMATCH, Row(Audit.IntegrityFail, One(u.finalPath), MISMATCH, None))
  }

  function OnDelete(g: Setting, s: State, path: Blob, os: Os): State {
    if !CanTransfer(g) then Refuse(s) else
      match g.resolve(path)
      case None => RejectPath(s, Audit.FileDelete, [path])
      case Some(target) =>
        var ok := target in s.disk && os.remove;
        Reply(Logged(s.(disk := if ok then s.disk - {target} else s.disk),
                     Row(Audit.FileDelete, One(target), if ok then OK else FAIL, None)),
              if ok then ST_OK else ST_NOT_FOUND, [])
  }

  function OnMove(g: Setting, s: State, from: Blob, to: Blob, os: Os): State {
    if !CanTransfer(g) then Refuse(s) else
      match (g.resolve(from), g.resolve(to))
      case (Some(src), Some(dst)) =>
        var ok := src in s.disk && os.rename;
        Reply(Logged(s.(disk := if ok then Rename(s.disk, src, dst) else s.disk),
                     Row(Audit.FileMove, Two(src, dst), if ok then OK else FAIL, None)),
              if ok then ST_OK else ST_IO_ERROR, [])
      case _ => RejectPath(s, Audit.FileMove, [from, to])
  }

  // The content cut into blocks, from offset off on.
  function Blocks(id: u32, data: Bytes, off: nat): seq<Msg>
    decreases |data| - off
  {
    if off >= |data| then [] else
      var n := if FILE_BLOCK_SIZE < |data| - off then FILE_BLOCK_SIZE else |data| - off;
      [File(FileBlock(id, off / FILE_BLOCK_SIZE % 0x1_0000_0000, data[off..off + n]))]
      + Blocks(id, data, off + FILE_BLOCK_SIZE)
  }

  // A 64-bit size field.
  function Size64(data: Bytes): u64 { |data| % 0x1_0000_0000_0000_0000 }

  function OnDownload(g: Setting, s: State, path: Blob, os: Os): State {
    if !CanTransfer(g) then Refuse(s) else
      match g.resolve(path)
      case None => RejectPath(s, Audit.FileDownload, [path])
      case Some(src) =>
        if src !in s.disk || !os.open then Reply(s, ST_NOT_FOUND, []) else
          var data := s.disk[src];
          var id := s.nextId;
          Logged(s.(nextId := Next(id),
                    replies := s.replies + [File(FileAccept(id, Size64(data), g.sha(data)))]
                               + Blocks(id, data, 0) + [File(FileComplete(id))]),
                 Row(Audit.FileDownload, One(src), OK, Some(g.sha(data))))
  }

  // One message; Bye ends the session and changes nothing.
  function Handle(g: Setting, s: State, m: Msg, os: Os): State {
    match m
    case Input(i) => if CanControl(g) then s.(injected := s.injected + [i]) else s
    case File(f) =>
      (match f
       case FileUploadReq(path, size, declared) => OnUploadReq(g, s, path, size, declared, os)
       case FileBlock(id, _, data) => OnBlock(s, id, data)
       case FileComplete(id) => OnComplete(g, s, id, os)
       case FileDelete(path) => OnDelete(g, s, path, os)
       case FileMove(from, to) => OnMove(g, s, from, to, os)
       case FileDownloadReq(path) => OnDownload(g, s, path, os)
       case FileVerify(_, status) =>
         if status != ST_OK then Logged(s, Row(Audit.IntegrityFail, NoTarget, MISMATCH, None)) else s
       case _ => s)
    case _ => s
  }

  // One turn of the event loop: a message or a time-out, what streaming would then come to,
  // and whether a lost capture could be set up again.
  datatype Turn = Turn(message: Option<Msg>, os: Os, video: Streamer.Step, restored: bool)

  // The session in its loop: the frames it has sent, whether it has a capture, whether it goes on.
  datatype Loop = Loop(state: State, streamed: nat, capturing: bool, open: bool)

  function Start(disk: Disk, capturing: bool): Loop { Loop(Fresh(disk), 0, capturing, true) }

  function LoopStep(g: Setting, l: Loop, t: Turn): Loop {
    if !l.open then l
    else if t.message == Some(Control(Bye)) then l.(open := false)
    else
      var l' := if t.message.Some? then l.(state := Handle(g, l.state, t.message.value, t.os)) else l;
      if !CanView(g) || !l.capturing then l' else
        match t.video
        case Sent => l'.(streamed := l.streamed + 1)
        case Skipped => l'
        case Reinitialize => l'.(capturing := t.restored)
        case Failed => l'.(open := false)
  }

  function LoopFrom(g: Setting, l: Loop, ts: seq<Turn>): Loop
    decreases |ts|
  {
    if ts == [] then l else LoopFrom(g, LoopStep(g, l, ts[0]), ts[1..])
  }

  // ---------------------------------------------- what a run of turns comes to

  // The capture fails in this turn, which is then the last.
  predicate Stops(view: bool, capturing: bool, t: Turn) { view && capturing && t.video.Failed? }

  predicate StillCapturing(view: bool, capturing: bool, t: Turn) {
    if view && capturing && t.video.Reinitialize? then t.restored else capturing
  }

  // The turns the loop takes: those before Bye, up to one in which the capture fails.
  function Taken(view: bool, capturing: bool, ts: seq<Turn>): seq<Turn>
    decreases |ts|
  {
    if ts == [] || ts[0].message == Some(Control(Bye)) then [] else
      [ts[0]] + if Stops(view, capturing, ts[0]) then []
                else Taken(view, StillCapturing(view, capturing, ts[0]), ts[1..])
  }

  function InputOf(t: Turn): seq<InputMsg> {
    if t.message.Some? && t.message.value.Input? then [t.message.value.input] else []
  }

  // The input messages of the turns, in order.
  function Inputs(ts: seq<Turn>): seq<InputMsg> {
    if ts == [] then [] else InputOf(ts[0]) + Inputs(ts[1..])
  }

  // The turns in which a frame goes out: those with a capture that has one.
  function FramesIn(view: bool, capturing: bool, ts: seq<Turn>): nat
    decreases |ts|
  {
    if ts == [] then 0 else
      (if view && capturing && ts[0].video.Sent? then 1 else 0)
      + FramesIn(view, StillCapturing(view, capturing, ts[0]), ts[1..])
  }

  // The rights themselves: every right that is meant to be held is, or AllAccess is.
  predicate Holds(rights: Rights, right: nat) { 0 in rights || right in rights }

  lemma {:induction false} ClosedStays(g: Setting, l: Loop, ts: seq<Turn>)
    requires !l.open
    ensures LoopFrom(g, l, ts) == l
    decreases |ts|
  {
    if ts != [] { ClosedStays(g, l, ts[1..]); }
  }

  lemma TurnInjects(g: Setting, l: Loop, t: Turn)
    requires l.open && t.message != Some(Control(Bye))
    ensures LoopStep(g, l, t).state.injected ==
      l.state.injected + if g.mode == 1 && Holds(g.rights, 2) then InputOf(t) else []
  {
    assert l.state.injected + [] == l.state.injected;
    if t.message.Some? && t.message.value.File? { FileKeepsGrant(g, l.state, t.message.value.file, t.os); }
  }

  lemma FirstTaken(g: Setting, l: Loop, ts: seq<Turn>)
    requires l.open && ts != [] && ts[0].message != Some(Control(Bye))
    ensures var (l', taken) := (LoopStep(g, l, ts[0]), Taken(CanView(g), l.capturing, ts));
      taken == [ts[0]] + if l'.open then Taken(CanView(g), l'.capturing, ts[1..]) else []
  {
  }

  lemma InputsFirst(t: Turn, rest: seq<Turn>)
    ensures Inputs([t] + rest) == InputOf(t) + Inputs(rest)
  {
    assert ([t] + rest)[1..] == rest;
  }

  /** Exactly what is injected: every input message of the turns taken, in order, in full control
      with the right to control the screen, and none otherwise. */
  lemma {:induction false} InjectedExactly(g: Setting, l: Loop, ts: seq<Turn>)
    requires l.open
    ensures LoopFrom(g, l, ts).state.injected == l.state.injected
      + if g.mode == 1 && Holds(g.rights, 2) then Inputs(Taken(CanView(g), l.capturing, ts)) else []
    decreases |ts|
  {
    var done := l.state.injected;
    assert done + [] == done;
    if ts != [] && ts[0].message != Some(Control(Bye)) {
      var l' := LoopStep(g, l, ts[0]);
      var rest := if l'.open then Taken(CanView(g), l'.capturing, ts[1..]) else [];
      TurnInjects(g, l, ts[0]);
      FirstTaken(g, l, ts);
      InputsFirst(ts[0], rest);
      Assoc(done, InputOf(ts[0]), Inputs(rest));
      if l'.open { InjectedExactly(g, l', ts[1..]); } else { ClosedStays(g, l', ts[1..]); }
    } else if ts != [] {
      ClosedStays(g, LoopStep(g, l, ts[0]), ts[1..]);
    }
  }

  /** Exactly what is streamed: a frame in every turn taken in which the capture, set up and not
      lost since, has one, outside file mode with a right to see the screen; and none otherwise. */
  lemma {:induction false} StreamedExactly(g: Setting, l: Loop, ts: seq<Turn>)
    requires l.open
    ensures var view := g.mode != 2 && (Holds(g.rights, 1) || Holds(g.rights, 2));
      LoopFrom(g, l, ts).streamed == l.streamed + FramesIn(view, l.capturing, Taken(view, l.capturing, ts))
    decreases |ts|
  {
    var view := g.mode != 2 && (Holds(g.rights, 1) || Holds(g.rights, 2));
    if ts != [] && ts[0].message != Some(Control(Bye)) {
      var l', taken := LoopStep(g, l, ts[0]), Taken(view, l.capturing, ts);
      assert taken[1..] == if l'.open then Taken(view, l'.capturing, ts[1..]) else [];
      if l'.open { StreamedExactly(g, l', ts[1..]); } else { ClosedStays(g, l', ts[1..]); }
    } else if ts != [] {
      ClosedStays(g, LoopStep(g, l, ts[0]), ts[1..]);
    }
  }

  /** Which turns are taken: all of them where none ends the session, and of longer runs those
      before the first Bye. */
  lemma {:induction false} TakenUpToBye(view: bool, capturing: bool, a: seq<Turn>, b: seq<Turn>)
    requires forall t | t in a :: t.message != Some(Control(Bye)) && !t.video.Failed?
    requires b != [] ==> b[0].message == Some(Control(Bye))
    ensures Taken(view, capturing, a + b) == a
    decreases |a|
  {
    if a == [] {
      assert a + b == b;
    } else {
      assert (a + b)[1..] == a[1..] + b && a == [a[0]] + a[1..] && a[0] in a;
      assert forall t | t in a[1..] :: t in a;
      TakenUpToBye(view, StillCapturing(view, capturing, a[0]), a[1..], b);
    }
  }

  // ------------------------------------------------------------ authorization

  predicate Authorized(rights: Rights, mode: u8) {
    if mode == FULL_CONTROL then HasRight(rights, SCREEN_CONTROL)
    else if mode == VIEW_ONLY then HasView(rights)
    else mode == FILE_ONLY && HasRight(rights, FILE_TRANSFER)
  }

  // Nothing has happened in the session that the grant does not allow.
  ghost predicate Allowed(g: Setting, disk: Disk, l: Loop) {
    && (l.state.injected != [] ==> g.mode == FULL_CONTROL && HasRight(g.rights, SCREEN_CONTROL))
    && (l.streamed > 0 ==> g.mode != FILE_ONLY && HasView(g.rights))
    && (l.state.disk != disk || l.state.uploads != map[] ==> HasRight(g.rights, FILE_TRANSFER))
  }

  /** Input is injected only in full control with the control right, frames are
      sent only outside file mode with a right to see, and the disk changes and
      uploads exist only for a holder of the file-transfer right; in every run,
      whatever the client sends. */
  lemma {:induction false} OnlyWhatIsGranted(g: Setting, disk: Disk, l: Loop, ts: seq<Turn>)
    requires Allowed(g, disk, l)
    ensures Allowed(g, disk, LoopFrom(g, l, ts))
    decreases |ts|
  {
    if ts != [] {
      var t := ts[0];
      if t.message.Some? { HandleKeepsGrant(g, l.state, t.message.value, t.os); }
      OnlyWhatIsGranted(g, disk, LoopStep(g, l, t), ts[1..]);
    }
  }

  // Blocks and completions are not checked for the right: without it there is no upload to apply to.
  lemma HandleKeepsGrant(g: Setting, s: State, m: Msg, os: Os)
    ensures var s' := Handle(g, s, m, os);
      && (s'.injected != s.injected ==> CanControl(g))
      && (!CanTransfer(g) && s.uploads == map[] ==> s'.disk == s.disk && s'.uploads == s.uploads)
  {
    if m.File? { FileKeepsGrant(g, s, m.file, os); }
  }

  lemma FileKeepsGrant(g: Setting, s: State, f: FileMsg, os: Os)
    ensures var s' := Handle(g, s, File(f), os);
      && s'.injected == s.injected
      && (!CanTransfer(g) && s.uploads == map[] ==> s'.disk == s.disk && s'.uploads == s.uploads)
  {
  }

  // ------------------------------------------------------ from the handshake on

  datatype Credentials = Credentials(user: string, password: string)

  // The exchange before the event loop, as far as the client takes it.
  datatype Intro = Intro(handshake: bool, helloVersion: Option<u16>, login: Option<Credentials>, mode: Option<u8>)

  // What a login is checked against, at the time it is, and the number a session would get.
  datatype Accounts = Accounts(policy: Security.Policy, users: map<string, Security.UserRecord>,
                               verify: Security.Verifier, decoy: string, lockouts: Security.Lockouts, now: nat,
                               sessionId: u64)

  // What the server says before the event loop.
  datatype Greeting =
    | Welcome(version: u16)
    | LoginResult(status: u8, rights: Rights, sessionId: u64)
    | Failed(code: u16)

  // What a connection comes to: the greetings and rows before the event loop, and the loop.
  datatype Talk = Talk(greetings: seq<Greeting>, opening: seq<Row>, loop: Loop)

  const PROTOCOL_VERSION: u16 := 1

  function Login(a: Accounts, c: Credentials): Security.Outcome {
    Security.TryUser(a.policy, Security.Get(a.lockouts, c.user), a.now,
                     Security.Verdict(a.users, a.verify, a.decoy, c.user, c.password)).0
  }

  function ResultOf(a: Accounts, o: Security.Outcome): Greeting {
    match o
    case Granted(rights) => LoginResult(0, rights, a.sessionId)
    case BadCredentials => LoginResult(1, {}, 0)
    case LockedOut => LoginResult(2, {}, 0)
  }

  function LoginRow(o: Security.Outcome): Row {
    if o.Granted? then Row(Audit.AuthSuccess, NoTarget, OK, None) else Row(Audit.AuthFailure, NoTarget, FAIL, None)
  }

  // A connection from the handshake to the end of the event loop.
  function Connection(a: Accounts, i: Intro, resolve: Resolver, sha: Sha256, disk: Disk, capturing: bool,
                      ts: seq<Turn>): Talk {
    var idle := Start(disk, capturing);
    if !i.handshake then Talk([], [Row(Audit.AuthFailure, NoTarget, FAIL, None)], idle)
    else if i.helloVersion.None? then Talk([], [], idle)
    else if i.helloVersion != Some(PROTOCOL_VERSION) then Talk([Failed(1)], [], idle)
    else if i.login.None? then Talk([Welcome(PROTOCOL_VERSION)], [], idle)
    else
      var o := Login(a, i.login.value);
      var greetings, opening := [Welcome(PROTOCOL_VERSION), ResultOf(a, o)], [LoginRow(o)];
      if !o.Granted? || i.mode.None? then Talk(greetings, opening, idle)
      else if !Authorized(o.rights, i.mode.value) then
        Talk(greetings + [Failed(2)], opening + [Row(Audit.PermissionDenied, NoTarget, DENIED, None)], idle)
      else
        Talk(greetings, opening + [Row(Audit.SessionStart, NoTarget, OK, None)],
             LoopFrom(Setting(o.rights, i.mode.value, resolve, sha), idle, ts))
  }

  // The client speaks the protocol and has the password of an account that is not locked.
  predicate Proven(a: Accounts, i: Intro) {
    && i.handshake && i.helloVersion == Some(PROTOCOL_VERSION) && i.login.Some? && i.login.value.user in a.users
    && a.verify(i.login.value.password, a.users[i.login.value.user].hash)
    && (i.login.value.user in a.lockouts ==> a.lockouts[i.login.value.user].lockedUntil <= a.now)
  }

  // What it is told instead: nothing without a handshake or a greeting, of another version that it
  // is another, and of a login that it failed or found the account locked, with no right and no
  // session; and what is logged is that, but for the versions.
  predicate ShutOut(a: Accounts, i: Intro, c: Talk, idle: Loop) {
    var failure := [Row(Audit.AuthFailure, NoTarget, FAIL, None)];
    if !i.handshake then c == Talk([], failure, idle)
    else match i.helloVersion
         case None => c == Talk([], [], idle)
         case Some(version) =>
           if version != 1 then c == Talk([Failed(1)], [], idle)
           else match i.login
                case None => c == Talk([Welcome(1)], [], idle)
                case Some(login) =>
                  var locked := login.user in a.lockouts && a.lockouts[login.user].lockedUntil > a.now;
                  c == Talk([Welcome(1), LoginResult(if locked then 2 else 1, {}, 0)], failure, idle)
  }

  // What each mode takes: viewing a right to see or to control, full control the right to
  // control, file transfer its own right; and there is no other mode.
  predicate Permits(rights: Rights, mode: u8) {
    || (mode == 0 && (Holds(rights, 1) || Holds(rights, 2)))
    || (mode == 1 && Holds(rights, 2))
    || (mode == 2 && Holds(rights, 3))
  }

  /** Whatever a client says and sends: without the password of an account that was not
      locked it is told no right, starts no session and changes nothing.  With it, it is told
      the rights in that account's record.  If they permit the mode it asks for, the session
      starts and is logged, and stays within them: input by the control right, frames by a
      viewing right outside file mode, files by the transfer right.  If not, it is told so,
      the refusal is logged, and nothing happens. */
  lemma {:induction false} NothingWithoutALogin(a: Accounts, i: Intro, resolve: Resolver, sha: Sha256, disk: Disk,
                                                capturing: bool, ts: seq<Turn>)
    ensures !Proven(a, i) ==>
      ShutOut(a, i, Connection(a, i, resolve, sha, disk, capturing, ts), Start(disk, capturing))
    ensures Proven(a, i) ==>
      var c, rights := Connection(a, i, resolve, sha, disk, capturing, ts), a.users[i.login.value.user].rights;
      var told, logged := [Welcome(PROTOCOL_VERSION), LoginResult(0, rights, a.sessionId)],
                          [Row(Audit.AuthSuccess, NoTarget, OK, None)];
      match i.mode
      case None => c == Talk(told, logged, Start(disk, capturing))
      case Some(mode) =>
        if Permits(rights, mode) then
          && c.greetings == told && c.opening == logged + [Row(Audit.SessionStart, NoTarget, OK, None)]
          && c.loop == LoopFrom(Setting(rights, mode, resolve, sha), Start(disk, capturing), ts)
          && Allowed(Setting(rights, mode, resolve, sha), disk, c.loop)
        else
          c == Talk(told + [Failed(2)], logged + [Row(Audit.PermissionDenied, NoTarget, DENIED, None)],
                    Start(disk, capturing))
  {
    if i.login.Some? {
      var o := Login(a, i.login.value);
      if o.Granted? && i.mode.Some? {
        OnlyWhatIsGranted(Setting(o.rights, i.mode.value, resolve, sha), disk, Start(disk, capturing), ts);
      }
    }
  }
}
