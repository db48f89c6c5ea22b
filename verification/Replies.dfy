/**
 What the client is told of a file operation, against what the log says and what has
 happened to the files (server/ServerApp.cpp, the file branches of session).
 */
module Replies {
  import opened Util
  import opened Protocol
  import opened Session
  import opened Transactions
  import opened Transfer
  import Audit

  // The step has logged this row, if any, and sent these messages.
  predicate Adds(s: State, s': State, row: Option<Row>, replies: seq<Msg>) {
    s'.rows == s.rows + (if row.Some? then [row.value] else []) && s'.replies == s.replies + replies
  }

  // FileOpStatus: 0 Ok, 1 Denied, 2 NotFound, 3 HashMismatch, 4 IoError, 6 BadPath.
  function Told(status: u8): seq<Msg> { [File(FileOpResult(status, []))] }

  // An operation is refused for want of the right, or for a path without a place in the file
  // root; the log says so, and names what was asked for.
  predicate Turned(g: Setting, s: State, s': State, action: Audit.AuditAction, names: seq<Bytes>) {
    && s'.disk == s.disk && s'.uploads == s.uploads
    && if !CanTransfer(g)
       then Adds(s, s', Some(Row(Audit.PermissionDenied, NoTarget, DENIED, None)), Told(1))
       else Adds(s, s', Some(Row(action, Asked(names), DENIED, None)), Told(6))
  }

  // The right to transfer files is held, and the path has a place.
  predicate Admissible(g: Setting, name: Bytes) { Holds(g.rights, 3) && g.resolve(name).Some? }

  /** A deletion is answered OK exactly when its row is OK, exactly when the file was there and
      is gone; and not found, with a row that says it failed, when nothing has changed. */
  lemma DeletionIsAnswered(g: Setting, s: State, path: Blob, os: Os)
    ensures var s' := OnDelete(g, s, path, os);
      if !Admissible(g, path) then Turned(g, s, s', Audit.FileDelete, [path]) else
        var p := g.resolve(path).value;
        var gone := p in s.disk && p !in s'.disk;
        && s'.disk == (if gone then s.disk - {p} else s.disk) && (gone <==> p in s.disk && os.remove)
        && Adds(s, s', Some(Row(Audit.FileDelete, One(p), if gone then OK else FAIL, None)),
                Told(if gone then 0 else 2))
  {
  }

  /** A move is answered OK exactly when its row is OK, exactly when the file was moved; and as an
      error, with a row that says it failed, when nothing has changed. */
  lemma MoveIsAnswered(g: Setting, s: State, from: Blob, to: Blob, os: Os)
    ensures var s' := OnMove(g, s, from, to, os);
      if !Admissible(g, from) || !Admissible(g, to) then Turned(g, s, s', Audit.FileMove, [from, to]) else
        var (src, dst) := (g.resolve(from).value, g.resolve(to).value);
        var moved := src in s.disk && os.rename;
        && (moved ==> dst in s'.disk && s'.disk[dst] == s.disk[src] && s'.disk - {src, dst} == s.disk - {src, dst}
                      && (src != dst ==> src !in s'.disk))
        && (!moved ==> s'.disk == s.disk)
        && Adds(s, s', Some(Row(Audit.FileMove, Two(src, dst), if moved then OK else FAIL, None)),
                Told(if moved then 0 else 4))
  {
  }

  /** A request is accepted, under a number that then holds the upload, or answered with why it
      is not; only what the operating system refuses is not logged. */
  lemma RequestIsAnswered(g: Setting, s: State, path: Blob, size: u64, declared: Hash256, os: Os)
    ensures var s' := OnUploadReq(g, s, path, size, declared, os);
      if !Admissible(g, path) then Turned(g, s, s', Audit.FileUpload, [path])
      else if !os.open then s'.disk == s.disk && s'.uploads == s.uploads && Adds(s, s', None, Told(4))
      else
        && Adds(s, s', None, [File(FileAccept(s.nextId, 0, NoHash()))])
        && s.nextId in s'.uploads && s'.nextId == Next(s.nextId)
        && s'.uploads[s.nextId].finalPath == g.resolve(path).value
        && s'.uploads[s.nextId].expected == size && s'.uploads[s.nextId].declared == declared
  {
  }

  /** A completion is answered under its number: OK exactly when its row is an OK upload with the
      digest received, a mismatch exactly when an integrity failure is logged, which is when the
      size or the hash received is not the declared one, and an error when the rename fails. */
  lemma CompletionIsAnswered(g: Setting, s: State, id: u32, os: Os)
    ensures id !in s.uploads ==> OnComplete(g, s, id, os) == s
    ensures id in s.uploads ==>
      var (s', u) := (OnComplete(g, s, id, os), s.uploads[id]);
      var intact := u.received == u.expected && g.sha(u.hashed) == u.declared;
      && s'.uploads == s.uploads - {id}
      && if !intact then
           Adds(s, s', Some(Row(Audit.IntegrityFail, One(u.finalPath), MISMATCH, None)),
                [File(FileVerify(id, 3))])
         else if Succeeds(g, s, id, os) then
           Adds(s, s', Some(Row(Audit.FileUpload, One(u.finalPath), OK, Some(u.declared))),
                [File(FileVerify(id, 0))])
         else
           Adds(s, s', Some(Row(Audit.FileUpload, One(u.finalPath), IO_ERROR, None)),
                [File(FileVerify(id, 4))])
  {
  }

  /** A download that is not served is answered with why; one that is served is logged with the
      digest of what was sent. */
  lemma DownloadIsAnswered(g: Setting, s: State, path: Blob, os: Os)
    ensures var s' := OnDownload(g, s, path, os);
      && s'.disk == s.disk && s'.uploads == s.uploads
      && if !Admissible(g, path) then Turned(g, s, s', Audit.FileDownload, [path])
         else if g.resolve(path).value !in s.disk || !os.open then Adds(s, s', None, Told(2))
         else
           var p := g.resolve(path).value;
           && s'.rows == s.rows + [Row(Audit.FileDownload, One(p), OK, Some(g.sha(s.disk[p])))]
           && s.replies <= s'.replies && s'.nextId == Next(s.nextId)
           && Downloaded(g.sha, s'.replies[|s.replies|..]) == Some((s.disk[p], true))
  {
    if Admissible(g, path) && g.resolve(path).value in s.disk && os.open { DownloadIsExact(g, s, path, os); }
  }

  /** Every other message of a client does nothing: what a server would send, blocks and
      completions of no upload, receipts that are good; and input does nothing but inject. */
  lemma OtherMessagesDoNothing(g: Setting, s: State, m: Msg, os: Os)
    requires match m
      case File(FileBlock(id, _, _)) => id !in s.uploads
      case File(FileComplete(id)) => id !in s.uploads
      case File(FileVerify(_, status)) => status == 0
      case File(f) => f.FileAccept? || f.FileOpResult?
      case _ => true
    ensures Handle(g, s, m, os) == if m.Input? then s.(injected := Handle(g, s, m, os).injected) else s
  {
  }

  /** The receipt closes the circle: what the client sends after a download makes the server log
      an integrity failure exactly when the copy has not the size and hash announced. */
  lemma ReceiptIsAudited(g: Setting, s: State, acceptance: Msg, local: Bytes, ok: bool, receipt: Msg, os: Os)
    requires Checked(g.sha, acceptance, local, ok, receipt)
    ensures var s' := Handle(g, s, receipt, os);
      s' == if Size64(local) == acceptance.file.size && g.sha(local) == acceptance.file.sha256 then s
            else s.(rows := s.rows + [Row(Audit.IntegrityFail, NoTarget, MISMATCH, None)])
  {
  }

  // ------------------------------------------------------------ whole sessions

  predicate TellsOk(m: Msg) {
    m.File? && ((m.file.FileOpResult? && m.file.status == 0) || (m.file.FileVerify? && m.file.status == 0))
  }

  predicate LogsOk(r: Row) {
    r.result == OK && (r.action == Audit.FileUpload || r.action == Audit.FileDelete || r.action == Audit.FileMove)
  }

  function OksTold(ms: seq<Msg>): nat {
    if ms == [] then 0 else OksTold(ms[..|ms| - 1]) + if TellsOk(ms[|ms| - 1]) then 1 else 0
  }

  function OksLogged(rows: seq<Row>): nat {
    if rows == [] then 0 else OksLogged(rows[..|rows| - 1]) + if LogsOk(rows[|rows| - 1]) then 1 else 0
  }

  lemma OneMoreReply(ms: seq<Msg>, m: Msg)
    ensures OksTold(ms + [m]) == OksTold(ms) + if TellsOk(m) then 1 else 0
  {
    assert (ms + [m])[..|ms|] == ms;
  }

  lemma OneMoreRow(rows: seq<Row>, r: Row)
    ensures OksLogged(rows + [r]) == OksLogged(rows) + if LogsOk(r) then 1 else 0
  {
    assert (rows + [r])[..|rows|] == rows;
  }

  lemma {:induction false} BlocksTellNothing(ms: seq<Msg>, id: u32, data: Bytes, off: nat)
    ensures OksTold(ms + Blocks(id, data, off)) == OksTold(ms)
    decreases |data| - off
  {
    if off >= |data| {
      assert ms + [] == ms;
    } else {
      var block := File(BlockAt(id, data, off));
      OneMoreReply(ms, block);
      BlocksTellNothing(ms + [block], id, data, off + FILE_BLOCK_SIZE);
      Assoc(ms, [block], Blocks(id, data, off + FILE_BLOCK_SIZE));
    }
  }

  // The step has told and logged equally many OKs.
  predicate Even(s: State, s': State) {
    OksTold(s'.replies) - OksTold(s.replies) == OksLogged(s'.rows) - OksLogged(s.rows)
  }

  lemma OneEach(s: State, s': State, row: Option<Row>, m: Msg)
    requires Adds(s, s', row, [m])
    requires TellsOk(m) <==> row.Some? && LogsOk(row.value)
    ensures Even(s, s')
  {
    OneMoreReply(s.replies, m);
    if row.Some? { OneMoreRow(s.rows, row.value); } else { assert s.rows + [] == s.rows; }
  }

  lemma ServedTellsNothing(ms: seq<Msg>, id: u32, data: Bytes, h: Hash256)
    ensures OksTold(ms + [File(FileAccept(id, Size64(data), h))] + Blocks(id, data, 0) + [File(FileComplete(id))])
         == OksTold(ms)
  {
    var acc := File(FileAccept(id, Size64(data), h));
    OneMoreReply(ms, acc);
    BlocksTellNothing(ms + [acc], id, data, 0);
    OneMoreReply(ms + [acc] + Blocks(id, data, 0), File(FileComplete(id)));
  }

  lemma ServingIsEven(g: Setting, s: State, path: Blob, os: Os)
    requires CanTransfer(g) && g.resolve(path).Some? && g.resolve(path).value in s.disk && os.open
    ensures Even(s, OnDownload(g, s, path, os))
  {
    var p := g.resolve(path).value;
    ServedTellsNothing(s.replies, s.nextId, s.disk[p], g.sha(s.disk[p]));
    OneMoreRow(s.rows, Row(Audit.FileDownload, One(p), OK, Some(g.sha(s.disk[p]))));
  }

  lemma DownloadIsEven(g: Setting, s: State, path: Blob, os: Os)
    ensures Even(s, OnDownload(g, s, path, os))
  {
    var s' := OnDownload(g, s, path, os);
    DownloadIsAnswered(g, s, path, os);
    if !Admissible(g, path) {
      OneEach(s, s', Some(s'.rows[|s.rows|]), s'.replies[|s.replies|]);
    } else if g.resolve(path).value !in s.disk || !os.open {
      OneEach(s, s', None, s'.replies[|s.replies|]);
    } else {
      ServingIsEven(g, s, path, os);
    }
  }

  lemma RequestIsEven(g: Setting, s: State, path: Blob, size: u64, declared: Hash256, os: Os)
    ensures Even(s, OnUploadReq(g, s, path, size, declared, os))
  {
    var s' := OnUploadReq(g, s, path, size, declared, os);
    RequestIsAnswered(g, s, path, size, declared, os);
    OneEach(s, s', if Admissible(g, path) then None else Some(s'.rows[|s.rows|]), s'.replies[|s.replies|]);
  }

  lemma CompletionIsEven(g: Setting, s: State, id: u32, os: Os)
    ensures Even(s, OnComplete(g, s, id, os))
  {
    var s' := OnComplete(g, s, id, os);
    CompletionIsAnswered(g, s, id, os);
    if id in s.uploads { OneEach(s, s', Some(s'.rows[|s.rows|]), s'.replies[|s.replies|]); }
  }

  lemma DeletionIsEven(g: Setting, s: State, path: Blob, os: Os)
    ensures Even(s, OnDelete(g, s, path, os))
  {
    var s' := OnDelete(g, s, path, os);
    DeletionIsAnswered(g, s, path, os);
    OneEach(s, s', Some(s'.rows[|s.rows|]), s'.replies[|s.replies|]);
  }

  lemma MoveIsEven(g: Setting, s: State, from: Blob, to: Blob, os: Os)
    ensures Even(s, OnMove(g, s, from, to, os))
  {
    var s' := OnMove(g, s, from, to, os);
    MoveIsAnswered(g, s, from, to, os);
    OneEach(s, s', Some(s'.rows[|s.rows|]), s'.replies[|s.replies|]);
  }

  lemma QuietIsEven(g: Setting, s: State, m: Msg, os: Os)
    requires m.File? ==> m.file.FileBlock? || m.file.FileVerify? || m.file.FileAccept? || m.file.FileOpResult?
    ensures Even(s, Handle(g, s, m, os))
  {
    var s' := Handle(g, s, m, os);
    if s'.rows != s.rows { OneMoreRow(s.rows, s'.rows[|s.rows|]); }
  }

  lemma StepIsEven(g: Setting, s: State, m: Msg, os: Os)
    ensures Even(s, Handle(g, s, m, os))
  {
    match m
    case File(FileUploadReq(path, size, declared)) => RequestIsEven(g, s, path, size, declared, os);
    case File(FileComplete(id)) => CompletionIsEven(g, s, id, os);
    case File(FileDownloadReq(path)) => DownloadIsEven(g, s, path, os);
    case File(FileDelete(path)) => DeletionIsEven(g, s, path, os);
    case File(FileMove(from, to)) => MoveIsEven(g, s, from, to, os);
    case _ => QuietIsEven(g, s, m, os);
  }

  /** In every session the client is told OK of uploads, deletions and moves exactly as often as
      the log says OK of them. */
  lemma {:induction false} ToldAsLogged(g: Setting, disk: Disk, es: seq<Event>)
    ensures OksTold(After(g, disk, es).replies) == OksLogged(After(g, disk, es).rows)
    decreases |es|
  {
    if es != [] {
      var n := |es| - 1;
      ToldAsLogged(g, disk, es[..n]);
      StepIsEven(g, After(g, disk, es[..n]), es[n].m, es[n].os);
    }
  }
}
