/**
 The client's file transfers (client/ClientApp.cpp, uploadFile and downloadFile)
 against the server's session: the block loops on each side undo each other.
 */
module Transfer {
  import opened Util
  import opened Protocol
  import opened Session
  import opened Transactions
  import Audit

  function Events(ms: seq<Msg>, os: Os): seq<Event> { seq(|ms|, i requires 0 <= i < |ms| => Event(ms[i], os)) }

  // A list of messages handled one after another, with the same luck.
  function HandleAll(g: Setting, s: State, ms: seq<Msg>, os: Os): State { From(g, s, Events(ms, os)) }

  lemma HandleAllJoin(g: Setting, s: State, a: seq<Msg>, b: seq<Msg>, os: Os)
    ensures HandleAll(g, s, a + b, os) == HandleAll(g, HandleAll(g, s, a, os), b, os)
  {
    assert Events(a + b, os) == Events(a, os) + Events(b, os);
    FromJoin(g, s, Events(a, os), Events(b, os));
  }

  lemma HandleOne(g: Setting, s: State, m: Msg, os: Os)
    ensures HandleAll(g, s, [m], os) == Handle(g, s, m, os)
  {
    var es := Events([m], os);
    assert From(g, s, es[..|es| - 1]) == s;
  }

  // ------------------------------------------------------------------- upload

  function Request(sha: Sha256, path: Blob, data: Bytes): Msg { File(FileUploadReq(path, Size64(data), sha(data))) }

  predicate IsAcceptance(ms: seq<Msg>) { ms != [] && ms[0].File? && ms[0].file.FileAccept? }

  // What the client reports of an upload, from the messages that come back.
  predicate Acknowledged(ms: seq<Msg>) {
    IsAcceptance(ms) && |ms| > 1 && ms[1].File? && ms[1].file.FileVerify? && ms[1].file.status == ST_OK
  }

  // What the client sends once the server has accepted the upload under this id.
  function UploadMsgs(id: u32, data: Bytes): seq<Msg> { Blocks(id, data, 0) + [File(FileComplete(id))] }

  // What is left of the file from an offset on.
  function Rest(data: Bytes, off: nat): Bytes { if off < |data| then data[off..] else [] }

  // The upload's file is there and holds what was received.
  ghost predicate InStep(s: State, id: u32) {
    id in s.uploads && RegularUpload(s.uploads[id])
    && s.uploads[id].tempPath in s.disk && s.disk[s.uploads[id].tempPath] == s.uploads[id].hashed
  }

  // The state once the upload under this id has taken in these bytes.
  function Gained(s: State, id: u32, data: Bytes): State
    requires id in s.uploads
  {
    var u := s.uploads[id];
    s.(disk := s.disk[u.tempPath := u.hashed + data],
       uploads := s.uploads[id := u.(received := u.received + |data|, hashed := u.hashed + data)])
  }

  lemma BlockTaken(g: Setting, s: State, id: u32, k: u32, data: Blob, os: Os)
    requires InStep(s, id)
    ensures Handle(g, s, File(FileBlock(id, k, data)), os) == Gained(s, id, data) && InStep(Gained(s, id, data), id)
  {
    WriteAtEnd(s.uploads[id].hashed, data);
  }

  lemma GainedBoth(s: State, id: u32, a: Bytes, b: Bytes)
    requires id in s.uploads
    ensures Gained(Gained(s, id, a), id, b) == Gained(s, id, a + b)
  {
    var u := s.uploads[id];
    Assoc(u.hashed, a, b);
    var s2, s' := Gained(Gained(s, id, a), id, b), Gained(s, id, a + b);
    assert s2.uploads[id] == s'.uploads[id];
    assert s2.uploads == s'.uploads && s2.disk == s'.disk;
  }

  lemma GainedNothing(s: State, id: u32)
    requires InStep(s, id)
    ensures Gained(s, id, []) == s
  {
    var u := s.uploads[id];
    assert u.hashed + [] == u.hashed;
    assert s.uploads[id := u] == s.uploads && s.disk[u.tempPath := u.hashed] == s.disk;
  }

  // The block that starts at an offset.
  function BlockAt(id: u32, data: Bytes, off: nat): FileMsg
    requires off < |data|
  {
    var n := if FILE_BLOCK_SIZE < |data| - off then FILE_BLOCK_SIZE else |data| - off;
    FileBlock(id, off / FILE_BLOCK_SIZE % 0x1_0000_0000, data[off..off + n])
  }

  lemma NextBlock(id: u32, data: Bytes, off: nat)
    requires off < |data|
    ensures Blocks(id, data, off) == [File(BlockAt(id, data, off))] + Blocks(id, data, off + FILE_BLOCK_SIZE)
  {
  }

  // The k-th block of the content.
  function BlockNumber(id: u32, data: Bytes, k: nat): Msg
    requires k * 65536 < |data|
  {
    var rest := data[k * 65536..];
    File(FileBlock(id, k % 0x1_0000_0000, if |rest| <= 65536 then rest else rest[..65536]))
  }

  lemma BlockHere(id: u32, data: Bytes, k: nat)
    requires k * 65536 < |data|
    ensures File(BlockAt(id, data, k * 65536)) == BlockNumber(id, data, k)
  {
    var off := k * 65536;
    var rest := data[off..];
    assert off / FILE_BLOCK_SIZE == k;
    if |rest| <= 65536 {
      assert data[off..off + |rest|] == rest;
    } else {
      assert data[off..off + 65536] == rest[..65536];
    }
  }

  lemma FirstBlock(id: u32, data: Bytes, k: nat)
    ensures Blocks(id, data, k * 65536) ==
      if k * 65536 < |data| then [BlockNumber(id, data, k)] + Blocks(id, data, (k + 1) * 65536) else []
  {
    if k * 65536 < |data| {
      NextBlock(id, data, k * 65536);
      BlockHere(id, data, k);
    }
  }

  /** The split: full blocks of 65536 bytes and what is left, numbered from zero; here from the
      k-th block on, and up to any n-th. */
  lemma {:induction false} BlocksAreNumbered(id: u32, data: Bytes, k: nat, n: nat)
    requires k <= n
    ensures var bs := Blocks(id, data, k * 65536);
      && (n - k < |bs| <==> n * 65536 < |data|)
      && (n * 65536 < |data| ==> bs[n - k] == BlockNumber(id, data, n))
    decreases n - k
  {
    FirstBlock(id, data, k);
    if k < n {
      BlocksAreNumbered(id, data, k + 1, n);
      if k * 65536 < |data| { Second(BlockNumber(id, data, k), Blocks(id, data, (k + 1) * 65536), n - k); }
    }
  }

  lemma Second(m: Msg, ms: seq<Msg>, i: nat)
    requires i > 0
    ensures |[m] + ms| == |ms| + 1 && (i <= |ms| ==> ([m] + ms)[i] == ms[i - 1])
  {
  }

  lemma BlocksFrom(g: Setting, s: State, id: u32, data: Bytes, off: nat, os: Os)
    requires off < |data|
    ensures HandleAll(g, s, Blocks(id, data, off), os)
         == HandleAll(g, Handle(g, s, File(BlockAt(id, data, off)), os), Blocks(id, data, off + FILE_BLOCK_SIZE), os)
  {
    var m := File(BlockAt(id, data, off));
    HandleOne(g, s, m, os);
    HandleAllJoin(g, s, [m], Blocks(id, data, off + FILE_BLOCK_SIZE), os);
  }

  /** The server's accumulation undoes the client's split, from any offset on, and does
      nothing else. */
  lemma {:induction false} BlocksAccumulate(g: Setting, s: State, id: u32, data: Bytes, off: nat, os: Os)
    requires InStep(s, id)
    ensures HandleAll(g, s, Blocks(id, data, off), os) == Gained(s, id, Rest(data, off))
    decreases |data| - off
  {
    if off >= |data| {
      GainedNothing(s, id);
    } else {
      var block := BlockAt(id, data, off);
      BlockTaken(g, s, id, block.sequence, block.data, os);
      BlocksAccumulate(g, Gained(s, id, block.data), id, data, off + FILE_BLOCK_SIZE, os);
      BlocksFrom(g, s, id, data, off, os);
      GainedBoth(s, id, block.data, Rest(data, off + FILE_BLOCK_SIZE));
      RestFrom(data, off, |block.data|);
    }
  }

  lemma RestFrom(data: Bytes, off: nat, n: nat)
    requires off < |data| && n == if FILE_BLOCK_SIZE < |data| - off then FILE_BLOCK_SIZE else |data| - off
    ensures data[off..off + n] + Rest(data, off + FILE_BLOCK_SIZE) == Rest(data, off)
  {
  }

  // The state once a whole upload has been received and not yet completed.
  function Loaded(g: Setting, s: State, dest: string, data: Bytes): State {
    State(s.disk[dest + PART := data],
          s.uploads[s.nextId := Upload(dest, dest + PART, Size64(data), g.sha(data), |data|, data)],
          Next(s.nextId), s.rows, s.replies + [File(FileAccept(s.nextId, 0, NoHash()))], s.injected)
  }

  lemma BlocksLoad(g: Setting, s: State, path: Blob, data: Bytes, os1: Os, os2: Os)
    requires CanTransfer(g) && g.resolve(path).Some? && os1.open
    ensures var s1 := Handle(g, s, Request(g.sha, path, data), os1);
      HandleAll(g, s1, Blocks(s.nextId, data, 0), os2) == Loaded(g, s, g.resolve(path).value, data)
  {
    var id, dest := s.nextId, g.resolve(path).value;
    var s1 := Handle(g, s, Request(g.sha, path, data), os1);
    BlocksAccumulate(g, s1, id, data, 0, os2);
    var s2, l := Gained(s1, id, data), Loaded(g, s, dest, data);
    assert Rest(data, 0) == data && [] + data == data;
    assert s2.uploads[id] == l.uploads[id];
    assert s2.uploads == l.uploads && s2.disk == l.disk;
  }

  // What the server makes of an upload, the client sending the blocks once it is accepted.
  function Exchange(g: Setting, s: State, path: Blob, data: Bytes, os1: Os, os2: Os): State {
    var s1 := Handle(g, s, Request(g.sha, path, data), os1);
    var answers := if s.replies <= s1.replies then s1.replies[|s.replies|..] else [];
    if IsAcceptance(answers) then HandleAll(g, s1, UploadMsgs(answers[0].file.transferId, data), os2) else s1
  }

  lemma ExchangeCompletes(g: Setting, s: State, path: Blob, data: Bytes, os1: Os, os2: Os)
    requires CanTransfer(g) && g.resolve(path).Some? && os1.open
    ensures Exchange(g, s, path, data, os1, os2)
         == OnComplete(g, Loaded(g, s, g.resolve(path).value, data), s.nextId, os2)
  {
    var id, s1 := s.nextId, Handle(g, s, Request(g.sha, path, data), os1);
    var s2 := Loaded(g, s, g.resolve(path).value, data);
    assert s1.replies[|s.replies|..] == [File(FileAccept(id, 0, NoHash()))];
    BlocksLoad(g, s, path, data, os1, os2);
    HandleOne(g, s2, File(FileComplete(id)), os2);
    HandleAllJoin(g, s1, Blocks(id, data, 0), [File(FileComplete(id))], os2);
  }

  // The state once a whole upload has gone through.
  function Arrived(g: Setting, s: State, dest: string, data: Bytes): State {
    State((s.disk - {dest + PART})[dest := data], s.uploads - {s.nextId}, Next(s.nextId),
          s.rows + [Row(Audit.FileUpload, One(dest), OK, Some(g.sha(data)))],
          s.replies + [File(FileAccept(s.nextId, 0, NoHash())), File(FileVerify(s.nextId, ST_OK))], s.injected)
  }

  // The state once the rename has been refused.
  function NotArrived(s: State, dest: string, data: Bytes, removed: bool): State {
    State(if removed then s.disk - {dest + PART} else s.disk[dest + PART := data],
          s.uploads - {s.nextId}, Next(s.nextId),
          s.rows + [Row(Audit.FileUpload, One(dest), IO_ERROR, None)],
          s.replies + [File(FileAccept(s.nextId, 0, NoHash())), File(FileVerify(s.nextId, ST_IO_ERROR))], s.injected)
  }

  lemma CompleteArrives(g: Setting, s: State, dest: string, data: Bytes, os: Os)
    requires |data| < 0x1_0000_0000_0000_0000
    ensures OnComplete(g, Loaded(g, s, dest, data), s.nextId, os)
         == if os.rename then Arrived(g, s, dest, data) else NotArrived(s, dest, data, os.remove)
  {
    var id, temp, l := s.nextId, dest + PART, Loaded(g, s, dest, data);
    assert temp != dest by { assert |temp| == |dest| + 5; }
    assert l.uploads - {id} == s.uploads - {id};
    assert Rename(s.disk[temp := data], temp, dest) == (s.disk - {temp})[dest := data];
    assert s.disk[temp := data] - {temp} == s.disk - {temp};
  }

  // Nothing has come of the upload: only a file with the temporary name may be another, and no
  // new row says OK.
  ghost predicate CameToNothing(g: Setting, s: State, s': State, path: Blob) {
    && (g.resolve(path).None? ==> s'.disk == s.disk)
    && (g.resolve(path).Some? ==>
          s'.disk - {g.resolve(path).value + PART} == s.disk - {g.resolve(path).value + PART})
    && s.rows <= s'.rows && forall r | r in s'.rows[|s.rows|..] :: r.result != OK
  }

  lemma NotAccepted(g: Setting, s: State, path: Blob, data: Bytes, os1: Os, os2: Os)
    requires !(CanTransfer(g) && g.resolve(path).Some? && os1.open)
    ensures var s' := Exchange(g, s, path, data, os1, os2);
      s.replies <= s'.replies && !Acknowledged(s'.replies[|s.replies|..]) && CameToNothing(g, s, s', path)
  {
    var s' := Handle(g, s, Request(g.sha, path, data), os1);
    assert s'.replies == s.replies + [s'.replies[|s.replies|]];
  }

  /** The client is told the truth of an upload, in any state and whatever the operating system
      refuses: it reports success exactly when the upload was permitted, accepted and renamed,
      and then the file holds its bytes, the row says so, and nothing else has changed but that
      a file with the temporary name is gone; otherwise nothing has come of it. */
  lemma UploadIsReportedTruly(g: Setting, s: State, path: Blob, data: Bytes, os1: Os, os2: Os)
    requires |data| < 0x1_0000_0000_0000_0000
    ensures var s' := Exchange(g, s, path, data, os1, os2);
      && s.replies <= s'.replies
      && (Acknowledged(s'.replies[|s.replies|..]) <==>
            CanTransfer(g) && g.resolve(path).Some? && os1.open && os2.rename)
      && if Acknowledged(s'.replies[|s.replies|..])
         then s' == Arrived(g, s, g.resolve(path).value, data) else CameToNothing(g, s, s', path)
  {
    if CanTransfer(g) && g.resolve(path).Some? && os1.open {
      ExchangeCompletes(g, s, path, data, os1, os2);
      CompleteArrives(g, s, g.resolve(path).value, data, os2);
    } else {
      NotAccepted(g, s, path, data, os1, os2);
    }
  }

  /** So an upload the server accepts arrives, in any state and whatever its length. */
  lemma UploadArrives(g: Setting, s: State, path: Blob, data: Bytes, os: Os)
    requires CanTransfer(g) && g.resolve(path).Some? && os == Os(true, true, true) && |data| < 0x1_0000_0000_0000_0000
    ensures var s' := HandleAll(g, s, [Request(g.sha, path, data)] + UploadMsgs(s.nextId, data), os);
      && s' == Arrived(g, s, g.resolve(path).value, data)
      && s.replies <= s'.replies && Acknowledged(s'.replies[|s.replies|..])
  {
    var req := Request(g.sha, path, data);
    UploadIsReportedTruly(g, s, path, data, os, os);
    HandleOne(g, s, req, os);
    HandleAllJoin(g, s, [req], UploadMsgs(s.nextId, data), os);
    var s1 := Handle(g, s, req, os);
    assert s1.replies[|s.replies|..] == [File(FileAccept(s.nextId, 0, NoHash()))];
  }

  // ----------------------------------------------------------------- download

  // What the client collects from the messages after the acceptance, up to the
  // completion; None when the connection ends or an Error message comes first.
  function Gather(ms: seq<Msg>, id: u32): Option<Bytes> {
    if ms == [] then None else
      match ms[0]
      case File(FileBlock(i, _, data)) =>
        var rest :- Gather(ms[1..], id);
        Some(if i == id then data + rest else rest)
      case File(FileComplete(_)) => Some([])
      case Control(Error(_, _)) => None
      case _ => Gather(ms[1..], id)
  }

  // The local copy, and whether it passed the integrity check.
  function Downloaded(sha: Sha256, ms: seq<Msg>): Option<(Bytes, bool)> {
    if ms == [] || !ms[0].File? || !ms[0].file.FileAccept? then None else
      var acc := ms[0].file;
      var data :- Gather(ms[1..], acc.transferId);
      Some((data, Size64(data) == acc.size && sha(data) == acc.sha256))
  }

  lemma {:induction false} GatherBlocks(id: u32, data: Bytes, off: nat, rest: seq<Msg>)
    requires Gather(rest, id).Some?
    ensures Gather(Blocks(id, data, off) + rest, id) == Some(Rest(data, off) + Gather(rest, id).value)
    decreases |data| - off
  {
    var tail := Gather(rest, id).value;
    if off >= |data| {
      assert Blocks(id, data, off) + rest == rest && [] + tail == tail;
    } else {
      var n := if FILE_BLOCK_SIZE < |data| - off then FILE_BLOCK_SIZE else |data| - off;
      var m := File(FileBlock(id, off / FILE_BLOCK_SIZE % 0x1_0000_0000, data[off..off + n]));
      GatherBlocks(id, data, off + FILE_BLOCK_SIZE, rest);
      GatherOne(id, m.file.sequence, data[off..off + n], Blocks(id, data, off + FILE_BLOCK_SIZE) + rest);
      Assoc([m], Blocks(id, data, off + FILE_BLOCK_SIZE), rest);
      Assoc(data[off..off + n], Rest(data, off + FILE_BLOCK_SIZE), tail);
      RestFrom(data, off, n);
    }
  }

  lemma GatherOne(id: u32, k: u32, data: Blob, more: seq<Msg>)
    requires Gather(more, id).Some?
    ensures Gather([File(FileBlock(id, k, data))] + more, id) == Some(data + Gather(more, id).value)
  {
    assert ([File(FileBlock(id, k, data))] + more)[1..] == more;
  }

  // The data of the blocks with this id, in the order they come.
  function DataWith(ms: seq<Msg>, id: u32): Bytes {
    if ms == [] then [] else
      DataWith(ms[..|ms| - 1], id) + BlockOf(ms[|ms| - 1], id)
  }

  // A message that ends the collecting.
  predicate EndsDownload(m: Msg) { (m.File? && m.file.FileComplete?) || (m.Control? && m.control.Error?) }

  lemma {:induction false} DataWithFirst(m: Msg, ms: seq<Msg>, id: u32)
    ensures DataWith([m] + ms, id) == BlockOf(m, id) + DataWith(ms, id)
    decreases |ms|
  {
    if ms == [] {
      assert [m] + ms == [m] && [m][..0] == [];
      assert [] + BlockOf(m, id) == BlockOf(m, id) + [];
    } else {
      var front, last := ms[..|ms| - 1], ms[|ms| - 1];
      assert ([m] + ms)[..|ms|] == [m] + front;
      DataWithFirst(m, front, id);
      Assoc(BlockOf(m, id), DataWith(front, id), BlockOf(last, id));
    }
  }

  lemma GatherGoesOn(m: Msg, ms: seq<Msg>, id: u32)
    requires !EndsDownload(m)
    ensures Gather([m] + ms, id) ==
      if Gather(ms, id).Some? then Some(BlockOf(m, id) + Gather(ms, id).value) else None
  {
    assert ([m] + ms)[1..] == ms;
    if Gather(ms, id).Some? { assert [] + Gather(ms, id).value == Gather(ms, id).value; }
  }

  lemma GatherEnds(rest: seq<Msg>, id: u32)
    requires rest != [] ==> EndsDownload(rest[0])
    ensures Gather(rest, id) == if rest != [] && rest[0].File? then Some([]) else None
  {
  }

  lemma OneMoreGathered(m: Msg, more: seq<Msg>, rest: seq<Msg>, id: u32, whole: bool)
    requires !EndsDownload(m) && Gather(more + rest, id) == if whole then Some(DataWith(more, id)) else None
    ensures Gather([m] + more + rest, id) == if whole then Some(DataWith([m] + more, id)) else None
  {
    GatherGoesOn(m, more + rest, id);
    DataWithFirst(m, more, id);
    Assoc([m], more, rest);
  }

  /** What a download collects: the data of the blocks with its id that come before the
      first completion, whatever else comes; nothing if an error or the end comes first. */
  lemma {:induction false} GathersItsBlocks(a: seq<Msg>, rest: seq<Msg>, id: u32)
    requires forall m | m in a :: !EndsDownload(m)
    requires rest != [] ==> EndsDownload(rest[0])
    ensures Gather(a + rest, id) == if rest != [] && rest[0].File? then Some(DataWith(a, id)) else None
    decreases |a|
  {
    if a == [] {
      GatherEnds(rest, id);
      assert a + rest == rest;
    } else {
      assert a[0] in a && forall m | m in a[1..] :: m in a;
      GathersItsBlocks(a[1..], rest, id);
      OneMoreGathered(a[0], a[1..], rest, id, rest != [] && rest[0].File?);
      assert [a[0]] + a[1..] == a;
    }
  }

  // Two contents with one hash.
  predicate Collide(sha: Sha256, a: Bytes, b: Bytes) { a != b && sha(a) == sha(b) }

  /** The integrity check: a completed download is good exactly when the blocks' data has the
      size and the hash of the acceptance; so under the acceptance of some content a good copy
      is that content, or the two have one hash. */
  lemma GoodCopyIsTheFile(sha: Sha256, id: u32, size: u64, h: Hash256, a: seq<Msg>, rest: seq<Msg>, content: Bytes)
    requires (forall m | m in a :: !EndsDownload(m)) && rest != [] && rest[0].File? && rest[0].file.FileComplete?
    ensures var local := DataWith(a, id);
      && Downloaded(sha, [File(FileAccept(id, size, h))] + (a + rest))
         == Some((local, |local| % 0x1_0000_0000_0000_0000 == size && sha(local) == h))
      && (size == Size64(content) && sha(local) == h == sha(content) ==>
            local == content || Collide(sha, local, content))
  {
    GathersItsBlocks(a, rest, id);
    assert ([File(FileAccept(id, size, h))] + (a + rest))[1..] == a + rest;
  }

  /** A download the server serves gives the client the file's bytes, verified. */
  lemma DownloadIsExact(g: Setting, s: State, path: Blob, os: Os)
    requires CanTransfer(g) && g.resolve(path).Some? && g.resolve(path).value in s.disk && os.open
    ensures var s' := OnDownload(g, s, path, os);
      && s.replies <= s'.replies && s'.disk == s.disk
      && Downloaded(g.sha, s'.replies[|s.replies|..]) == Some((s.disk[g.resolve(path).value], true))
  {
    var s' := OnDownload(g, s, path, os);
    var id, data := s.nextId, s.disk[g.resolve(path).value];
    var acc, end := File(FileAccept(id, Size64(data), g.sha(data))), [File(FileComplete(id))];
    assert s'.replies[|s.replies|..] == [acc] + (Blocks(id, data, 0) + end);
    assert ([acc] + (Blocks(id, data, 0) + end))[1..] == Blocks(id, data, 0) + end;
    GatherBlocks(id, data, 0, end);
    assert Rest(data, 0) + [] == data;
  }

  /** Upload any bytes, download the same path: both ends report success and the
      copy is the original. */
  lemma FileSurvivesTheRoundTrip(g: Setting, s: State, path: Blob, data: Bytes, os: Os)
    requires CanTransfer(g) && g.resolve(path).Some? && os == Os(true, true, true) && |data| < 0x1_0000_0000_0000_0000
    ensures var s1 := HandleAll(g, s, [Request(g.sha, path, data)] + UploadMsgs(s.nextId, data), os);
      var s2 := Handle(g, s1, File(FileDownloadReq(path)), os);
      && s.replies <= s1.replies && Acknowledged(s1.replies[|s.replies|..])
      && s1.replies <= s2.replies
      && Downloaded(g.sha, s2.replies[|s1.replies|..]) == Some((data, true))
  {
    UploadArrives(g, s, path, data, os);
    var s1 := HandleAll(g, s, [Request(g.sha, path, data)] + UploadMsgs(s.nextId, data), os);
    DownloadIsExact(g, s1, path, os);
  }

  // ------------------------------------------------------------- the program

  /** The client's side of an upload, with the messages that come back. */
  method UploadFile(sha: Sha256, path: Blob, data: Bytes, ms: seq<Msg>) returns (ok: bool, sent: seq<Msg>)
    ensures ok <==> |ms| >= 2 && ms[0].File? && ms[0].file.FileAccept?
                    && ms[1].File? && ms[1].file.FileVerify? && ms[1].file.status == ST_OK
    ensures ok == Acknowledged(ms)
    ensures sent == [Request(sha, path, data)]
                    + if IsAcceptance(ms) then UploadMsgs(ms[0].file.transferId, data) else []
  {
    sent := [File(FileUploadReq(path, Size64(data), sha(data)))];
    assert sent + [] == sent;
    if ms == [] { return false, sent; }
    if ms[0].File? && ms[0].file.FileOpResult? { return false, sent; }
    if !ms[0].File? || !ms[0].file.FileAccept? { return false, sent; }
    var blocks := SendUpload(ms[0].file.transferId, data);
    sent := sent + blocks;
    if |ms| < 2 || !ms[1].File? || !ms[1].file.FileVerify? { return false, sent; }
    ok := ms[1].file.status == ST_OK;
  }

  /** The client's block loop. */
  method SendUpload(id: u32, data: Bytes) returns (sent: seq<Msg>)
    ensures sent == UploadMsgs(id, data)
  {
    sent := [];
    var off := 0;
    while off < |data|
      invariant sent + Blocks(id, data, off) == Blocks(id, data, 0)
    {
      var block := File(BlockAt(id, data, off));
      NextBlock(id, data, off);
      Assoc(sent, [block], Blocks(id, data, off + FILE_BLOCK_SIZE));
      sent := sent + [block];
      off := off + FILE_BLOCK_SIZE;
    }
    assert sent + [] == sent;
    sent := sent + [File(FileComplete(id))];
  }

  // What is collected in the end, with this much collected already.
  function Collected(local: Bytes, rest: Option<Bytes>): Option<Bytes> {
    match rest
    case None => None
    case Some(more) => Some(local + more)
  }

  // What the message at i does to it.
  lemma GatherNext(ms: seq<Msg>, i: nat, id: u32, local: Bytes)
    requires i < |ms|
    ensures Collected(local, Gather(ms[i..], id)) ==
      match ms[i]
      case File(FileBlock(j, _, data)) => Collected(if j == id then local + data else local, Gather(ms[i + 1..], id))
      case File(FileComplete(_)) => Some(local + [])
      case Control(Error(_, _)) => None
      case _ => Collected(local, Gather(ms[i + 1..], id))
  {
    assert ms[i..][0] == ms[i] && ms[i..][1..] == ms[i + 1..];
    var rest := Gather(ms[i + 1..], id);
    if ms[i].File? && ms[i].file.FileBlock? && rest.Some? { Assoc(local, ms[i].file.data, rest.value); }
  }

  // The copy is taken for good exactly when it has the size and hash announced, and the
  // receipt says which.
  predicate Checked(sha: Sha256, acceptance: Msg, local: Bytes, ok: bool, receipt: Msg) {
    && acceptance.File? && acceptance.file.FileAccept?
    && (ok <==> Size64(local) == acceptance.file.size && sha(local) == acceptance.file.sha256)
    && receipt == File(FileVerify(acceptance.file.transferId, if ok then ST_OK else ST_HASH_MISMATCH))
  }

  // The receiving loop: the blocks with this id up to a completion, with their total size.
  method Collect(id: u32, ms: seq<Msg>) returns (local: Option<Bytes>, got: u64)
    ensures local == Gather(ms, id) && (local.Some? ==> got == Size64(local.value))
  {
    var data: Bytes := [];
    got := 0;
    var i := 0;
    ghost var goal := Gather(ms, id);
    assert goal.Some? ==> [] + goal.value == goal.value;
    assert ms[0..] == ms;
    while i < |ms|
      invariant 0 <= i <= |ms| && got == Size64(data)
      invariant goal == Collected(data, Gather(ms[i..], id))
    {
      var m := ms[i];
      GatherNext(ms, i, id, data);
      if m.File? && m.file.FileBlock? {
        if m.file.transferId == id {
          got := (got + |m.file.data|) % 0x1_0000_0000_0000_0000;
          data := data + m.file.data;
        }
      } else if m.File? && m.file.FileComplete? {
        assert data + [] == data;
        return Some(data), got;
      } else if m.Control? && m.control.Error? {
        return None, got;
      }
      i := i + 1;
    }
    return None, got;
  }

  /** The client's side of a download, over the messages that come back: what it reports, the
      copy, and the receipt it sends. */
  method ReceiveDownload(sha: Sha256, ms: seq<Msg>) returns (ok: bool, local: Bytes, receipt: Option<Msg>)
    ensures match Downloaded(sha, ms)
      case None => !ok && receipt == None
      case Some((data, good)) => ok == good && local == data && receipt.Some?
    ensures receipt.Some? ==> ms != [] && Checked(sha, ms[0], local, ok, receipt.value)
    ensures ok ==> receipt.Some?
  {
    ok, local, receipt := false, [], None;
    if ms == [] || !ms[0].File? || !ms[0].file.FileAccept? { return; }
    var acc := ms[0].file;
    var collected, got := Collect(acc.transferId, ms[1..]);
    if collected.None? { return; }
    local := collected.value;
    ok := got == acc.size && sha(local) == acc.sha256;
    receipt := Some(File(FileVerify(acc.transferId, if ok then ST_OK else ST_HASH_MISMATCH)));
  }
}
