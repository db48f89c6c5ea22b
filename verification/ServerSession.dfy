/** The session as the server runs it (server/ServerApp.cpp): one object whose fields each message updates. */
module ServerSession {
  import opened Util
  import opened Protocol
  import opened Session
  import opened Transactions
  import Audit

  // The messages of the turns, as the events of a run.
  function EventsOf(ts: seq<Turn>): seq<Event> {
    if ts == [] then [] else EventOf(ts[0]) + EventsOf(ts[1..])
  }

  function EventOf(t: Turn): seq<Event> {
    if t.message.Some? then [Event(t.message.value, t.os)] else []
  }

  // The events of the turns taken.
  function EventsTaken(g: Setting, capturing: bool, ts: seq<Turn>): seq<Event> {
    EventsOf(Taken(CanView(g), capturing, ts))
  }

  lemma EventsFirst(g: Setting, s: State, t: Turn, rest: seq<Turn>)
    ensures From(g, s, EventsOf([t] + rest))
         == From(g, if t.message.Some? then Handle(g, s, t.message.value, t.os) else s, EventsOf(rest))
  {
    assert ([t] + rest)[1..] == rest;
    if t.message.Some? {
      var e := Event(t.message.value, t.os);
      FromJoin(g, s, [e], EventsOf(rest));
      assert From(g, s, [e][..0]) == s;
    } else {
      assert [] + EventsOf(rest) == EventsOf(rest);
    }
  }

  /** A run of the event loop is the run of the messages it takes, and what is proved of runs
      of messages holds of the loop. */
  lemma {:induction false} LoopIsARun(g: Setting, l: Loop, ts: seq<Turn>)
    requires l.open
    ensures LoopFrom(g, l, ts).state == From(g, l.state, EventsTaken(g, l.capturing, ts))
    decreases |ts|
  {
    if ts != [] {
      var l' := LoopStep(g, l, ts[0]);
      if ts[0].message != Some(Control(Bye)) {
        var rest := if l'.open then Taken(CanView(g), l'.capturing, ts[1..]) else [];
        FirstTaken(g, l, ts);
        EventsFirst(g, l.state, ts[0], rest);
      }
      if l'.open { LoopIsARun(g, l', ts[1..]); } else { ClosedStays(g, l', ts[1..]); }
    }
  }

  class FileSession {
    const g: Setting
    var disk: Disk
    var uploads: map<u32, Upload>
    var nextId: u32
    var rows: seq<Row>
    var replies: seq<Msg>
    var injected: seq<InputMsg>
    var streamed: nat
    var capturing: bool

    // capturing: whether the capture could be set up.
    constructor (g: Setting, disk: Disk, capturing: bool)
      ensures this.g == g && State() == Fresh(disk) && streamed == 0 && this.capturing == capturing
    {
      this.g, this.disk, this.capturing := g, disk, capturing;
      uploads, nextId, rows, replies, injected, streamed := map[], 1, [], [], [], 0;
    }

    ghost function State(): State reads this {
      Session.State(disk, uploads, nextId, rows, replies, injected)
    }

    ghost function Video(): (nat, bool) reads this { (streamed, capturing) }

    method SendOpResult(status: u8)
      modifies this`replies
      ensures replies == old(replies) + [File(FileOpResult(status, []))]
    {
      replies := replies + [File(FileOpResult(status, []))];
    }

    method LogRow(action: Audit.AuditAction, target: Target, result: Result, digest: Option<Hash256>)
      modifies this`rows
      ensures rows == old(rows) + [Row(action, target, result, digest)]
    {
      rows := rows + [Row(action, target, result, digest)];
    }

    method UploadReq(path: Blob, size: u64, declared: Hash256, os: Os)
      modifies this
      ensures State() == OnUploadReq(g, old(State()), path, size, declared, os) && Video() == old(Video())
    {
      if !CanTransfer(g) {
        LogRow(Audit.PermissionDenied, NoTarget, DENIED, None);
        SendOpResult(ST_DENIED);
        return;
      }
      var dest := g.resolve(path);
      if dest.None? {
        LogRow(Audit.FileUpload, Asked([path]), DENIED, None);
        SendOpResult(ST_BAD_PATH);
        return;
      }
      var temp := dest.value + PART;
      if !os.open {
        SendOpResult(ST_IO_ERROR);
        return;
      }
      disk := disk[temp := []];
      var id := nextId;
      nextId := Next(nextId);
      uploads := uploads[id := Upload(dest.value, temp, size, declared, 0, [])];
      replies := replies + [File(FileAccept(id, 0, NoHash()))];
    }

    method Block(id: u32, data: Blob)
      modifies this
      ensures State() == OnBlock(old(State()), id, data) && Video() == old(Video())
    {
      if id !in uploads { return; }
      var u := uploads[id];
      disk := Store(disk, u.tempPath, u.received, data);
      u := u.(hashed := u.hashed + data);
      u := u.(received := u.received + |data|);
      uploads := uploads[id := u];
    }

    method Remove(path: string, os: Os) returns (removed: bool)
      modifies this`disk
      ensures removed == (path in old(disk) && os.remove)
      ensures disk == if removed then old(disk) - {path} else old(disk)
    {
      removed := path in disk && os.remove;
      if removed { disk := disk - {path}; }
    }

    method RenameFile(src: string, dst: string, os: Os) returns (ok: bool)
      modifies this`disk
      ensures ok == (src in old(disk) && os.rename)
      ensures disk == if ok then Rename(old(disk), src, dst) else old(disk)
    {
      ok := src in disk && os.rename;
      if ok { disk := Rename(disk, src, dst); }
    }

    method Complete(id: u32, os: Os)
      modifies this
      ensures State() == OnComplete(g, old(State()), id, os) && Video() == old(Video())
    {
      if id !in uploads { return; }
      var u := uploads[id];
      var actual := g.sha(u.hashed);
      var sizeOk := u.received == u.expected;
      var hashOk := actual == u.declared;
      if sizeOk && hashOk {
        var renamed := RenameFile(u.tempPath, u.finalPath, os);
        if !renamed {
          var _ := Remove(u.tempPath, os);
          assert u.tempPath !in old(disk) ==> old(disk) - {u.tempPath} == old(disk);
          replies := replies + [File(FileVerify(id, ST_IO_ERROR))];
          LogRow(Audit.FileUpload, One(u.finalPath), IO_ERROR, None);
        } else {
          replies := replies + [File(FileVerify(id, ST_OK))];
          LogRow(Audit.FileUpload, One(u.finalPath), OK, Some(actual));
        }
      } else {
        var _ := Remove(u.tempPath, os);
        assert u.tempPath !in old(disk) ==> old(disk) - {u.tempPath} == old(disk);
        replies := replies + [File(FileVerify(id, ST_HASH_MISMATCH))];
        LogRow(Audit.IntegrityFail, One(u.finalPath), MISMATCH, None);
      }
      uploads := uploads - {id};
    }

    method Delete(path: Blob, os: Os)
      modifies this
      ensures State() == OnDelete(g, old(State()), path, os) && Video() == old(Video())
    {
      if !CanTransfer(g) {
        LogRow(Audit.PermissionDenied, NoTarget, DENIED, None);
        SendOpResult(ST_DENIED);
        return;
      }
      var target := g.resolve(path);
      if target.None? {
        LogRow(Audit.FileDelete, Asked([path]), DENIED, None);
        SendOpResult(ST_BAD_PATH);
        return;
      }
      var ok := Remove(target.value, os);
      LogRow(Audit.FileDelete, One(target.value), if ok then OK else FAIL, None);
      SendOpResult(if ok then ST_OK else ST_NOT_FOUND);
    }

    method Move(from: Blob, to: Blob, os: Os)
      modifies this
      ensures State() == OnMove(g, old(State()), from, to, os) && Video() == old(Video())
    {
      if !CanTransfer(g) {
        LogRow(Audit.PermissionDenied, NoTarget, DENIED, None);
        SendOpResult(ST_DENIED);
        return;
      }
      var src := g.resolve(from);
      var dst := g.resolve(to);
      if src.None? || dst.None? {
        LogRow(Audit.FileMove, Asked([from, to]), DENIED, None);
        SendOpResult(ST_BAD_PATH);
        return;
      }
      var ok := RenameFile(src.value, dst.value, os);
      LogRow(Audit.FileMove, Two(src.value, dst.value), if ok then OK else FAIL, None);
      SendOpResult(if ok then ST_OK else ST_IO_ERROR);
    }

    method Download(path: Blob, os: Os)
      modifies this
      ensures State() == OnDownload(g, old(State()), path, os) && Video() == old(Video())
    {
      if !CanTransfer(g) {
        LogRow(Audit.PermissionDenied, NoTarget, DENIED, None);
        SendOpResult(ST_DENIED);
        return;
      }
      var src := g.resolve(path);
      if src.None? {
        LogRow(Audit.FileDownload, Asked([path]), DENIED, None);
        SendOpResult(ST_BAD_PATH);
        return;
      }
      if src.value !in disk || !os.open {
        SendOpResult(ST_NOT_FOUND);
        return;
      }
      var data := disk[src.value];
      var h := g.sha(data);
      var id := nextId;
      nextId := Next(nextId);
      replies := replies + [File(FileAccept(id, Size64(data), h))];
      SendBlocks(id, data);
      replies := replies + [File(FileComplete(id))];
      LogRow(Audit.FileDownload, One(src.value), OK, Some(h));
    }

    method SendBlocks(id: u32, data: Bytes)
      modifies this`replies
      ensures replies == old(replies) + Blocks(id, data, 0)
    {
      var off := 0;
      while off < |data|
        invariant replies + Blocks(id, data, off) == old(replies) + Blocks(id, data, 0)
      {
        var n := if FILE_BLOCK_SIZE < |data| - off then FILE_BLOCK_SIZE else |data| - off;
        var block := File(FileBlock(id, off / FILE_BLOCK_SIZE % 0x1_0000_0000, data[off..off + n]));
        Assoc(replies, [block], Blocks(id, data, off + FILE_BLOCK_SIZE));
        replies := replies + [block];
        off := off + FILE_BLOCK_SIZE;
      }
      assert replies + [] == replies;
    }

    /** One message; answers whether the session goes on. */
    method HandleMessage(m: Msg, os: Os) returns (goOn: bool)
      modifies this
      ensures State() == Handle(g, old(State()), m, os) && Video() == old(Video()) && goOn == (m != Control(Bye))
    {
      goOn := m != Control(Bye);
      match m {
        case Input(i) => if CanControl(g) { injected := injected + [i]; }
        case File(f) => HandleFile(f, os);
        case _ =>
      }
    }

    method HandleFile(f: FileMsg, os: Os)
      modifies this
      ensures State() == Handle(g, old(State()), File(f), os) && Video() == old(Video())
    {
      match f {
        case FileUploadReq(path, size, declared) => UploadReq(path, size, declared, os);
        case FileBlock(id, _, data) => Block(id, data);
        case FileComplete(id) => Complete(id, os);
        case FileDelete(path) => Delete(path, os);
        case FileMove(from, to) => Move(from, to, os);
        case FileDownloadReq(path) => Download(path, os);
        case FileVerify(_, status) =>
          if status != ST_OK { LogRow(Audit.IntegrityFail, NoTarget, MISMATCH, None); }
        case _ =>
      }
    }

    ghost function Now(open: bool): Loop reads this { Loop(State(), streamed, capturing, open) }

    /** The body of the event loop; answers whether the loop goes on. */
    method TakeTurn(t: Turn) returns (goOn: bool)
      modifies this
      ensures Now(goOn) == LoopStep(g, old(Now(true)), t)
    {
      goOn := true;
      if t.message.Some? {
        goOn := HandleMessage(t.message.value, t.os);
        if !goOn { return; }
      }
      if CanView(g) && capturing {
        match t.video {
          case Sent => streamed := streamed + 1;
          case Skipped =>
          case Reinitialize => capturing := t.restored;
          case Failed => goOn := false;
        }
      }
    }

    /** The event loop, up to Bye, a capture that fails, or the end of the connection. */
    method EventLoop(ts: seq<Turn>)
      requires State() == Fresh(disk) && streamed == 0
      modifies this
      ensures var l := LoopFrom(g, Start(old(disk), old(capturing)), ts);
        State() == l.state && Video() == (l.streamed, l.capturing)
    {
      ghost var end := LoopFrom(g, Start(disk, capturing), ts);
      var i := 0;
      while i < |ts|
        invariant 0 <= i <= |ts|
        invariant LoopFrom(g, Now(true), ts[i..]) == end
      {
        assert ts[i..][0] == ts[i] && ts[i..][1..] == ts[i + 1..];
        var goOn := TakeTurn(ts[i]);
        if !goOn {
          ClosedStays(g, Now(false), ts[i + 1..]);
          break;
        }
        i := i + 1;
      }
    }

    /** The end of the session: every upload in progress loses its temporary file,
        except where the operating system refuses. */
    method CleanUp(refused: set<string>)
      modifies this`disk
      ensures disk == Discard(old(disk), Temps(old(State())) - refused)
    {
      var ids := uploads.Keys;
      ghost var gone: set<string> := {};
      assert old(disk) - {} == old(disk);
      while ids != {}
        invariant ids <= uploads.Keys && State() == old(State()).(disk := disk)
        invariant disk == old(disk) - gone
        invariant forall p ::
          p in gone <==> p !in refused && exists id :: id in uploads.Keys - ids && uploads[id].tempPath == p
        decreases ids
      {
        var id :| id in ids;
        var temp := uploads[id].tempPath;
        assert uploads.Keys - (ids - {id}) == (uploads.Keys - ids) + {id};
        if temp !in refused {
          disk := disk - {temp};
          gone := gone + {temp};
        }
        ids := ids - {id};
      }
      assert gone == Temps(State()) - refused by {
        forall p ensures p in gone <==> p in Temps(State()) - refused {
          assert uploads.Keys - {} == uploads.Keys;
        }
      }
      assert Temps(State()) == Temps(old(State()));
    }

    /** The session from its first turn to its end.  When no step misstates what it did, the
        files it leaves are those its rows tell of if and only if no removal is refused. */
    method Run(ts: seq<Turn>, refused: set<string>)
      requires State() == Fresh(disk) && streamed == 0
      modifies this
      ensures var es := EventsTaken(g, old(capturing), ts);
        var s := After(g, old(disk), es);
        && disk == Discard(s.disk, Temps(s) - refused) && rows == s.rows && replies == s.replies
        && injected == (if g.mode == 1 && Holds(g.rights, 2) then Inputs(Taken(CanView(g), old(capturing), ts)) else [])
        && ((forall i | 0 <= i < |es| :: !MisstatesAt(g, old(disk), es, i)) ==>
              (DigestsOf(g.sha, disk) == Replay(DigestsOf(g.sha, old(disk)), rows) <==> Refused(s, refused) == {}))
    {
      ghost var es := EventsTaken(g, capturing, ts);
      ghost var s := After(g, disk, es);
      LoopIsARun(g, Start(disk, capturing), ts);
      InjectedExactly(g, Start(disk, capturing), ts);
      assert [] + Inputs(Taken(CanView(g), capturing, ts)) == Inputs(Taken(CanView(g), capturing, ts));
      EventLoop(ts);
      assert Temps(State()) == Temps(s);
      CleanUp(refused);
      if forall i | 0 <= i < |es| :: !MisstatesAt(g, old(disk), es, i) {
        NothingIsLeftBehind(s, refused);
        RowsAreTheHistory(g, old(disk), es);
        SameContent(g.sha, s.disk, Temps(s) - refused, Temps(s));
      }
    }
  }
}
