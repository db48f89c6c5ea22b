/**
 What the temporary name of an upload is worth (server/ServerApp.cpp, the upload
 branches of session).  The name is the destination plus ".part", so other messages of
 the session can reach the file behind it.  Here is exactly when they do, in any state
 and any run: which messages interfere with an upload in progress, that without one the
 upload lands as its own blocks, and that after any one of them it need not.
 */
module TempNames {
  import opened Util
  import opened Protocol
  import opened Session
  import opened Transactions
  import Audit

  // The message is the end of the upload, or gives its number to another one.
  predicate Ends(g: Setting, s: State, id: u32, e: Event) {
    e.m == File(FileComplete(id)) || (Opens(g, e.m, e.os) && s.nextId == id)
  }

  // The message replaces what is under the upload's temporary name: an accepted request with
  // the same temporary name, another upload completed onto it, or a file moved onto it.
  predicate Interferes(g: Setting, s: State, id: u32, e: Event)
    requires id in s.uploads
  {
    var u := s.uploads[id];
    match e.m
    case File(FileUploadReq(_, _, _)) => Opens(g, e.m, e.os) && Dest(g, e.m, e.os) + PART == u.tempPath
    case File(FileComplete(j)) =>
      j != id && Succeeds(g, s, j, e.os) && s.uploads[j].finalPath == u.tempPath
      && s.disk[s.uploads[j].tempPath] != u.hashed
    case File(FileMove(from, to)) =>
      Moves(g, s, from, to, e.os) && g.resolve(to).value == u.tempPath && g.resolve(from).value != u.tempPath
      && s.disk[g.resolve(from).value] != u.hashed
    case _ => false
  }

  // The upload goes on through these events.
  predicate Ongoing(g: Setting, s: State, id: u32, es: seq<Event>) {
    es == [] || (Ongoing(g, s, id, es[..|es| - 1]) && !Ends(g, From(g, s, es[..|es| - 1]), id, es[|es| - 1]))
  }

  predicate InterferesNow(g: Setting, s: State, id: u32, e: Event) { id in s.uploads && Interferes(g, s, id, e) }

  // None of these events interferes with the upload.
  predicate Undisturbed(g: Setting, s: State, id: u32, es: seq<Event>) {
    es == []
    || (Undisturbed(g, s, id, es[..|es| - 1]) && !InterferesNow(g, From(g, s, es[..|es| - 1]), id, es[|es| - 1]))
  }

  // The upload's temporary file, where it is there, is its own and holds what it has received.
  ghost predicate Own(s: State, id: u32, data: Bytes) {
    && id in s.uploads && s.uploads[id].hashed == data && s.uploads[id].received == |data|
    && (s.uploads[id].tempPath in s.disk ==> s.disk[s.uploads[id].tempPath] == data)
    && Alone(s, id)
  }

  // No other upload has the same file open.
  ghost predicate Alone(s: State, id: u32)
    requires id in s.uploads
  {
    forall j | j in s.uploads && j != id :: s.uploads[j].tempPath != s.uploads[id].tempPath
  }

  // If completing the upload is reported OK, its file holds these bytes.
  predicate Lands(g: Setting, s: State, id: u32, data: Bytes, os: Os) {
    Succeeds(g, s, id, os) ==>
      var dest, s' := s.uploads[id].finalPath, OnComplete(g, s, id, os);
      dest in s'.disk && s'.disk[dest] == data
  }

  // -------------------------------------------------- without interference

  lemma OwnRequest(g: Setting, s: State, id: u32, data: Bytes, path: Blob, size: u64, declared: Hash256, os: Os)
    requires Own(s, id, data)
    requires CanTransfer(g) && g.resolve(path).Some? && os.open ==>
      s.nextId != id && g.resolve(path).value + PART != s.uploads[id].tempPath
    ensures Own(OnUploadReq(g, s, path, size, declared, os), id, data)
  {
  }

  lemma OwnBlock(s: State, id: u32, data: Bytes, i: u32, block: Blob)
    requires Own(s, id, data)
    ensures Own(OnBlock(s, i, block), id, data + if i == id then block else [])
  {
    assert data + [] == data;
    if i == id { WriteAtEnd(data, block); }
  }

  lemma OwnComplete(g: Setting, s: State, id: u32, data: Bytes, j: u32, os: Os)
    requires Own(s, id, data) && j != id
    requires Succeeds(g, s, j, os) && s.uploads[j].finalPath == s.uploads[id].tempPath ==>
      s.disk[s.uploads[j].tempPath] == data
    ensures Own(OnComplete(g, s, j, os), id, data)
  {
  }

  lemma OwnMove(g: Setting, s: State, id: u32, data: Bytes, from: Blob, to: Blob, os: Os)
    requires Own(s, id, data) && !Interferes(g, s, id, Event(File(FileMove(from, to)), os))
    ensures Own(OnMove(g, s, from, to, os), id, data)
  {
  }

  lemma OwnStep(g: Setting, s: State, id: u32, data: Bytes, e: Event)
    requires Own(s, id, data) && !Ends(g, s, id, e) && !Interferes(g, s, id, e)
    ensures Own(Handle(g, s, e.m, e.os), id, data + BlockOf(e.m, id))
  {
    assert data + [] == data;
    if e.m.File? {
      match e.m.file
      case FileUploadReq(path, size, declared) => OwnRequest(g, s, id, data, path, size, declared, e.os);
      case FileBlock(i, _, block) => OwnBlock(s, id, data, i, block);
      case FileComplete(j) => OwnComplete(g, s, id, data, j, e.os);
      case FileDelete(path) =>
      case FileMove(from, to) => OwnMove(g, s, id, data, from, to, e.os);
      case FileDownloadReq(path) =>
      case _ =>
    }
  }

  lemma {:induction false} OwnRun(g: Setting, s: State, id: u32, data: Bytes, es: seq<Event>)
    requires Own(s, id, data) && Ongoing(g, s, id, es) && Undisturbed(g, s, id, es)
    ensures Own(From(g, s, es), id, data + BlockData(es, id))
    decreases |es|
  {
    if es == [] {
      assert data + [] == data;
    } else {
      var n := |es| - 1;
      OwnRun(g, s, id, data, es[..n]);
      OwnStep(g, From(g, s, es[..n]), id, data + BlockData(es[..n], id), es[n]);
      Assoc(data, BlockData(es[..n], id), BlockOf(es[n].m, id));
    }
  }

  /** From any state in which the temporary file is the upload's own, through any events
      of which none interferes, the upload lands as what it had and its own blocks. */
  lemma UndisturbedUploadLands(g: Setting, s: State, id: u32, data: Bytes, es: seq<Event>, os: Os)
    requires Own(s, id, data) && Ongoing(g, s, id, es) && Undisturbed(g, s, id, es)
    ensures Lands(g, From(g, s, es), id, data + BlockData(es, id), os)
  {
    OwnRun(g, s, id, data, es);
  }

  // ----------------------------------------------------- with interference

  // The temporary file is there and is not what the upload has received.
  ghost predicate Diverged(s: State, id: u32) {
    && id in s.uploads && s.uploads[id].received == |s.uploads[id].hashed|
    && s.uploads[id].tempPath in s.disk && s.disk[s.uploads[id].tempPath] != s.uploads[id].hashed
  }

  // Events that only bring blocks, or complete other uploads while nothing can be renamed or removed.
  predicate Mild(id: u32, e: Event) {
    match e.m
    case File(FileBlock(_, _, _)) => true
    case File(FileComplete(j)) => j != id && e.os == Os(true, false, false)
    case _ => false
  }

  ghost predicate AllMild(id: u32, es: seq<Event>) { forall e | e in es :: Mild(id, e) }

  lemma {:induction false} MildIsQuiet(g: Setting, s: State, id: u32, es: seq<Event>)
    requires AllMild(id, es)
    ensures Ongoing(g, s, id, es) && Undisturbed(g, s, id, es)
    decreases |es|
  {
    if es != [] {
      var n := |es| - 1;
      assert forall e | e in es[..n] :: e in es;
      MildIsQuiet(g, s, id, es[..n]);
      assert es[n] in es && Mild(id, es[n]);
    }
  }

  // The other uploads of the same file can be brought to an end without touching the file,
  // as the operating system refuses to rename or remove what another has open.
  lemma {:induction false} CloseOthers(g: Setting, s: State, id: u32) returns (es: seq<Event>)
    requires Diverged(s, id)
    ensures AllMild(id, es) && BlockData(es, id) == []
    ensures var s' := From(g, s, es); Diverged(s', id) && Alone(s', id) && s'.uploads[id] == s.uploads[id]
    decreases |s.uploads|
  {
    if Alone(s, id) {
      return [];
    }
    var j :| j in s.uploads && j != id && s.uploads[j].tempPath == s.uploads[id].tempPath;
    var e := Event(File(FileComplete(j)), Os(true, false, false));
    var s1 := Handle(g, s, e.m, e.os);
    assert s1.uploads == s.uploads - {j} && s1.disk == s.disk;
    assert |s1.uploads| < |s.uploads| by { FewerKeys(s.uploads, j); }
    var rest := CloseOthers(g, s1, id);
    es := [e] + rest;
    OneFirst(g, s, e, rest, id);
  }

  lemma FewerKeys<K, V>(m: map<K, V>, k: K)
    requires k in m
    ensures |m - {k}| < |m|
  {
    assert (m - {k}).Keys == m.Keys - {k} && |(m - {k}).Keys| == |m - {k}| && |m.Keys| == |m|;
  }

  lemma OneFirst(g: Setting, s: State, e: Event, es: seq<Event>, id: u32)
    ensures From(g, s, [e] + es) == From(g, Handle(g, s, e.m, e.os), es)
    ensures BlockData([e] + es, id) == BlockOf(e.m, id) + BlockData(es, id)
  {
    assert [e][..0] == [];
    FromJoin(g, s, [e], es);
    BlockDataJoin([e], es, id);
    assert [] + BlockOf(e.m, id) == BlockOf(e.m, id);
  }

  lemma {:induction false} BlockDataJoin(a: seq<Event>, b: seq<Event>, id: u32)
    ensures BlockData(a + b, id) == BlockData(a, id) + BlockData(b, id)
    decreases |b|
  {
    if b == [] {
      assert a + b == a && BlockData(a, id) + [] == BlockData(a, id);
    } else {
      var n := |b| - 1;
      assert (a + b)[..|a + b| - 1] == a + b[..n];
      BlockDataJoin(a, b[..n], id);
      Assoc(BlockData(a, id), BlockData(b[..n], id), BlockOf(b[n].m, id));
    }
  }

  // An upload whose file another has just emptied, or shares from the start.
  lemma SharedDiverges(g: Setting, s: State, id: u32, j: u32) returns (es: seq<Event>)
    requires id in s.uploads && j in s.uploads && j != id && s.uploads[j].tempPath == s.uploads[id].tempPath
    requires s.uploads[id].tempPath in s.disk && s.disk[s.uploads[id].tempPath] == []
    requires s.uploads[id].received == |s.uploads[id].hashed|
    ensures AllMild(id, es) && |BlockData(es, id)| <= 1
    ensures var s' := From(g, s, es);
      Diverged(s', id) && s'.uploads[id].hashed == s.uploads[id].hashed + BlockData(es, id)
  {
    var u := s.uploads[id];
    if u.hashed != [] {
      assert u.hashed + [] == u.hashed;
      return [];
    }
    var kept := Os(true, false, false);
    var mine, other := Event(File(FileBlock(id, 0, [1])), kept), Event(File(FileBlock(j, 0, [2])), kept);
    es := [mine] + [other];
    TwoBlocks(g, s, id, j, mine, other);
    TwoBytes(s, id, j);
  }

  lemma TwoBlocks(g: Setting, s: State, id: u32, j: u32, mine: Event, other: Event)
    requires mine.m == File(FileBlock(id, 0, [1])) && other.m == File(FileBlock(j, 0, [2])) && j != id
    ensures From(g, s, [mine] + [other]) == OnBlock(OnBlock(s, id, [1]), j, [2])
    ensures BlockData([mine] + [other], id) == [1]
  {
    assert [other][..0] == [];
    OneFirst(g, s, mine, [other], id);
    assert BlockData([other], id) == [] + [];
    assert [1] + ([] + []) == [1];
  }

  lemma TwoBytes(s: State, id: u32, j: u32)
    requires id in s.uploads && j in s.uploads && j != id && s.uploads[j].tempPath == s.uploads[id].tempPath
    requires s.uploads[id].tempPath in s.disk && s.disk[s.uploads[id].tempPath] == []
    requires s.uploads[id].received == 0 && s.uploads[id].hashed == []
    ensures var s' := OnBlock(OnBlock(s, id, [1]), j, [2]); Diverged(s', id) && s'.uploads[id].hashed == [1]
  {
    var temp, s1 := s.uploads[id].tempPath, OnBlock(s, id, [1]);
    assert WriteAt([], 0, [1]) == [1] && s1.disk[temp] == [1] && [] + [1] == [1];
    assert OnBlock(s1, j, [2]).disk[temp] == WriteAt([1], s.uploads[j].received, [2]);
    NotJustOne(s.uploads[j].received);
  }

  lemma NotJustOne(r: nat)
    ensures WriteAt([1], r, [2]) != [1]
  {
    assert WriteAt([1], r, [2])[r] == 2;
  }

  // Every kind of interference leaves the file, after some mild events, other than what was received.
  lemma InterferenceDiverges(g: Setting, s: State, id: u32, data: Bytes, e: Event) returns (es: seq<Event>)
    requires Own(s, id, data) && !Ends(g, s, id, e) && Interferes(g, s, id, e)
    ensures AllMild(id, es) && |BlockData(es, id)| <= 1
    ensures var s' := From(g, Handle(g, s, e.m, e.os), es);
      Diverged(s', id) && s'.uploads[id].hashed == data + BlockData(es, id)
  {
    var s1 := Handle(g, s, e.m, e.os);
    if Opens(g, e.m, e.os) {
      assert s1.uploads[id] == s.uploads[id] && s1.disk[s.uploads[id].tempPath] == [];
      es := SharedDiverges(g, s1, id, s.nextId);
    } else {
      es := [];
      assert data + [] == data;
    }
  }

  // The same, and with no other upload having the file open any more.
  lemma InterferenceSpoils(g: Setting, s: State, id: u32, data: Bytes, e: Event) returns (es: seq<Event>)
    requires Own(s, id, data) && !Ends(g, s, id, e) && Interferes(g, s, id, e)
    ensures AllMild(id, es) && |BlockData(es, id)| <= 1
    ensures var s' := From(g, Handle(g, s, e.m, e.os), es);
      Diverged(s', id) && Alone(s', id) && s'.uploads[id].hashed == data + BlockData(es, id)
  {
    var s1 := Handle(g, s, e.m, e.os);
    var a := InterferenceDiverges(g, s, id, data, e);
    var b := CloseOthers(g, From(g, s1, a), id);
    es := a + b;
    FromJoin(g, s1, a, b);
    BlockDataJoin(a, b, id);
    assert BlockData(a, id) + [] == BlockData(a, id);
  }

  // ------------------------------------------------------ declaring otherwise

  // The state had the client declared another size and hash.
  function Redeclared(s: State, id: u32, size: u64, declared: Hash256): State
    requires id in s.uploads
  {
    s.(uploads := s.uploads[id := s.uploads[id].(expected := size, declared := declared)])
  }

  lemma RedeclareRequest(g: Setting, s: State, id: u32, n: u64, h: Hash256,
                         path: Blob, size: u64, declared: Hash256, os: Os)
    requires id in s.uploads && (CanTransfer(g) && g.resolve(path).Some? && os.open ==> s.nextId != id)
    ensures var (s', t') := (OnUploadReq(g, s, path, size, declared, os),
                             OnUploadReq(g, Redeclared(s, id, n, h), path, size, declared, os));
      id in s'.uploads && t' == Redeclared(s', id, n, h)
  {
    var s' := OnUploadReq(g, s, path, size, declared, os);
    var t' := OnUploadReq(g, Redeclared(s, id, n, h), path, size, declared, os);
    assert t'.uploads == Redeclared(s', id, n, h).uploads;
  }

  lemma RedeclareBlock(s: State, id: u32, n: u64, h: Hash256, i: u32, data: Blob)
    requires id in s.uploads
    ensures id in OnBlock(s, i, data).uploads
    ensures OnBlock(Redeclared(s, id, n, h), i, data) == Redeclared(OnBlock(s, i, data), id, n, h)
  {
    assert OnBlock(Redeclared(s, id, n, h), i, data).uploads == Redeclared(OnBlock(s, i, data), id, n, h).uploads;
  }

  lemma DropElsewhere<K, V>(m: map<K, V>, k: K, v: V, j: K)
    requires j != k
    ensures m[k := v] - {j} == (m - {j})[k := v]
  {
  }

  lemma RedeclareComplete(g: Setting, s: State, id: u32, n: u64, h: Hash256, j: u32, os: Os)
    requires id in s.uploads && j != id
    ensures id in OnComplete(g, s, j, os).uploads
    ensures OnComplete(g, Redeclared(s, id, n, h), j, os) == Redeclared(OnComplete(g, s, j, os), id, n, h)
  {
    DropElsewhere(s.uploads, id, s.uploads[id].(expected := n, declared := h), j);
  }

  lemma RedeclareStep(g: Setting, s: State, id: u32, n: u64, h: Hash256, e: Event)
    requires id in s.uploads && !Ends(g, s, id, e)
    ensures id in Handle(g, s, e.m, e.os).uploads
    ensures Handle(g, Redeclared(s, id, n, h), e.m, e.os) == Redeclared(Handle(g, s, e.m, e.os), id, n, h)
  {
    if e.m.File? {
      match e.m.file
      case FileUploadReq(path, size, declared) => RedeclareRequest(g, s, id, n, h, path, size, declared, e.os);
      case FileBlock(i, _, data) => RedeclareBlock(s, id, n, h, i, data);
      case FileComplete(j) => RedeclareComplete(g, s, id, n, h, j, e.os);
      case FileDelete(path) =>
      case FileMove(from, to) =>
      case FileDownloadReq(path) =>
      case _ =>
    }
  }

  lemma RedeclareInterferes(g: Setting, s: State, id: u32, n: u64, h: Hash256, e: Event)
    requires id in s.uploads
    ensures Interferes(g, Redeclared(s, id, n, h), id, e) == Interferes(g, s, id, e)
  {
  }

  lemma {:induction false} RedeclareRun(g: Setting, s: State, id: u32, size: u64, declared: Hash256, es: seq<Event>)
    requires id in s.uploads && Ongoing(g, s, id, es)
    ensures id in From(g, s, es).uploads
    ensures var t := Redeclared(s, id, size, declared);
      && From(g, t, es) == Redeclared(From(g, s, es), id, size, declared)
      && Ongoing(g, t, id, es) && Undisturbed(g, t, id, es) == Undisturbed(g, s, id, es)
    decreases |es|
  {
    if es != [] {
      var n := |es| - 1;
      RedeclareRun(g, s, id, size, declared, es[..n]);
      RedeclareStep(g, From(g, s, es[..n]), id, size, declared, es[n]);
      RedeclareInterferes(g, From(g, s, es[..n]), id, size, declared, es[n]);
    }
  }

  // --------------------------------------------------------- the exact condition

  // Whatever size and hash the request declares, at every point of the run, and whatever
  // follows it that does not interfere: the upload completes, if it does and no other upload
  // has the file open, as its own blocks.
  ghost predicate SafeThroughout(g: Setting, s: State, path: Blob, os: Os, es: seq<Event>) {
    forall size: u64, declared: Hash256, k: nat, more: seq<Event> ::
      k <= |es| ==> SafeAt(g, OnUploadReq(g, s, path, size, declared, os), s.nextId, es[..k], more)
  }

  ghost predicate SafeAt(g: Setting, s: State, id: u32, es: seq<Event>, more: seq<Event>) {
    var (s1, s2) := (From(g, s, es), From(g, s, es + more));
    Ongoing(g, s1, id, more) && Undisturbed(g, s1, id, more) && id in s2.uploads && Alone(s2, id) ==>
      forall os: Os :: Lands(g, s2, id, BlockData(es + more, id), os)
  }

  /** An accepted request is safe throughout a run if and only if no upload in progress has
      its temporary name and no event of the run interferes with it. */
  lemma SafeExactlyWhenUndisturbed(g: Setting, s: State, path: Blob, size: u64, declared: Hash256, os: Os,
                                   es: seq<Event>)
    requires CanTransfer(g) && g.resolve(path).Some? && os.open && s.nextId !in s.uploads
    requires Ongoing(g, OnUploadReq(g, s, path, size, declared, os), s.nextId, es)
    requires |BlockData(es, s.nextId)| < 0xFFFF_FFFF_FFFF_FFFF
    ensures SafeThroughout(g, s, path, os, es) <==>
      && g.resolve(path).value + PART !in Temps(s)
      && Undisturbed(g, OnUploadReq(g, s, path, size, declared, os), s.nextId, es)
  {
    var id, temp := s.nextId, g.resolve(path).value + PART;
    var s0 := OnUploadReq(g, s, path, size, declared, os);
    if temp in Temps(s) {
      SharedFromTheStart(g, s, path, size, declared, os, es);
    } else {
      RequestOwns(g, s, path, size, declared, os);
      if Undisturbed(g, s0, id, es) {
        forall n: u64, h: Hash256, k: nat, more: seq<Event> | k <= |es|
          ensures SafeAt(g, OnUploadReq(g, s, path, n, h, os), id, es[..k], more)
        {
          UndisturbedIsSafe(g, s0, id, n, h, es, k, more);
        }
      } else {
        DisturbedIsNotSafe(g, s, path, size, declared, os, es);
      }
    }
  }

  lemma RequestOwns(g: Setting, s: State, path: Blob, size: u64, declared: Hash256, os: Os)
    requires CanTransfer(g) && g.resolve(path).Some? && os.open && s.nextId !in s.uploads
    requires g.resolve(path).value + PART !in Temps(s)
    ensures Own(OnUploadReq(g, s, path, size, declared, os), s.nextId, [])
    ensures forall n: u64, h: Hash256 ::
      OnUploadReq(g, s, path, n, h, os) == Redeclared(OnUploadReq(g, s, path, size, declared, os), s.nextId, n, h)
  {
    forall j | j in s.uploads ensures s.uploads[j].tempPath in Temps(s) { }
    forall n: u64, h: Hash256
      ensures OnUploadReq(g, s, path, n, h, os)
           == Redeclared(OnUploadReq(g, s, path, size, declared, os), s.nextId, n, h)
    {
      RequestRedeclared(g, s, path, size, declared, n, h, os);
    }
  }

  lemma RequestRedeclared(g: Setting, s: State, path: Blob, size: u64, declared: Hash256, n: u64, h: Hash256, os: Os)
    requires CanTransfer(g) && g.resolve(path).Some? && os.open
    ensures OnUploadReq(g, s, path, n, h, os) == Redeclared(OnUploadReq(g, s, path, size, declared, os), s.nextId, n, h)
  {
    var s1 := OnUploadReq(g, s, path, n, h, os);
    var s2 := Redeclared(OnUploadReq(g, s, path, size, declared, os), s.nextId, n, h);
    assert s1.uploads == s2.uploads;
  }

  lemma {:induction false} QuietPrefix(g: Setting, s: State, id: u32, es: seq<Event>, k: nat)
    requires k <= |es|
    ensures Ongoing(g, s, id, es) ==> Ongoing(g, s, id, es[..k])
    ensures Undisturbed(g, s, id, es) ==> Undisturbed(g, s, id, es[..k])
    decreases |es|
  {
    if k < |es| {
      QuietPrefix(g, s, id, es[..|es| - 1], k);
      assert es[..|es| - 1][..k] == es[..k];
    } else {
      assert es[..k] == es;
    }
  }

  lemma UndisturbedIsSafe(g: Setting, s: State, id: u32, n: u64, h: Hash256, es: seq<Event>, k: nat, more: seq<Event>)
    requires Own(s, id, []) && Ongoing(g, s, id, es) && Undisturbed(g, s, id, es) && k <= |es|
    ensures SafeAt(g, Redeclared(s, id, n, h), id, es[..k], more)
  {
    var t, front := Redeclared(s, id, n, h), es[..k];
    QuietPrefix(g, s, id, es, k);
    RedeclareRun(g, s, id, n, h, front);
    OwnRun(g, t, id, [], front);
    var t1 := From(g, t, front);
    if Ongoing(g, t1, id, more) && Undisturbed(g, t1, id, more) {
      FromJoin(g, t, front, more);
      BlockDataJoin(front, more, id);
      forall os: Os ensures Lands(g, From(g, t, front + more), id, BlockData(front + more, id), os) {
        UndisturbedUploadLands(g, t1, id, [] + BlockData(front, id), more, os);
        assert [] + BlockData(front, id) == BlockData(front, id);
      }
    }
  }

  // A diverged upload that declared what it received completes as something else.
  lemma DivergedIsNotSafe(g: Setting, s: State, id: u32, es: seq<Event>, more: seq<Event>, data: Bytes)
    requires Ongoing(g, From(g, s, es), id, more) && Undisturbed(g, From(g, s, es), id, more)
    requires var s2 := From(g, s, es + more);
      && Diverged(s2, id) && Alone(s2, id) && s2.uploads[id].hashed == data == BlockData(es + more, id)
      && s2.uploads[id].expected == |data| && s2.uploads[id].declared == g.sha(data)
    ensures !SafeAt(g, s, id, es, more)
  {
    var s2, os := From(g, s, es + more), Os(true, true, true);
    assert Succeeds(g, s2, id, os);
    assert !Lands(g, s2, id, data, os);
  }

  lemma {:induction false} FirstDisturbance(g: Setting, s: State, id: u32, es: seq<Event>) returns (k: nat)
    requires Ongoing(g, s, id, es) && !Undisturbed(g, s, id, es)
    ensures k < |es| && Ongoing(g, s, id, es[..k]) && Undisturbed(g, s, id, es[..k])
    ensures var t := From(g, s, es[..k]); InterferesNow(g, t, id, es[k]) && !Ends(g, t, id, es[k])
    decreases |es|
  {
    var n := |es| - 1;
    if Undisturbed(g, s, id, es[..n]) {
      k := n;
    } else {
      k := FirstDisturbance(g, s, id, es[..n]);
      assert es[..n][..k] == es[..k];
    }
  }

  lemma SpoilAt(g: Setting, s: State, id: u32, es: seq<Event>, k: nat) returns (more: seq<Event>)
    requires Own(s, id, []) && k < |es| && Ongoing(g, s, id, es[..k]) && Undisturbed(g, s, id, es[..k])
    requires InterferesNow(g, From(g, s, es[..k]), id, es[k]) && !Ends(g, From(g, s, es[..k]), id, es[k])
    ensures AllMild(id, more) && |BlockData(es[..k + 1] + more, id)| <= |BlockData(es[..k], id)| + 1
    ensures var s2 := From(g, s, es[..k + 1] + more);
      Diverged(s2, id) && Alone(s2, id) && s2.uploads[id].hashed == BlockData(es[..k + 1] + more, id)
  {
    var front, e := es[..k], es[k];
    OwnRun(g, s, id, [], front);
    var data := [] + BlockData(front, id);
    more := InterferenceSpoils(g, From(g, s, front), id, data, e);
    assert es[..k + 1][..k] == front;
    FromJoin(g, s, es[..k + 1], more);
    BlockDataJoin(es[..k + 1], more, id);
    assert BlockOf(e.m, id) == [];
    assert data + [] == data && BlockData(es[..k + 1], id) == data;
  }

  lemma DisturbedIsNotSafe(g: Setting, s: State, path: Blob, size: u64, declared: Hash256, os: Os, es: seq<Event>)
    requires CanTransfer(g) && g.resolve(path).Some? && os.open && s.nextId !in s.uploads
    requires Own(OnUploadReq(g, s, path, size, declared, os), s.nextId, [])
    requires Ongoing(g, OnUploadReq(g, s, path, size, declared, os), s.nextId, es)
    requires |BlockData(es, s.nextId)| < 0xFFFF_FFFF_FFFF_FFFF
    requires !Undisturbed(g, OnUploadReq(g, s, path, size, declared, os), s.nextId, es)
    ensures !SafeThroughout(g, s, path, os, es)
  {
    var id, s0 := s.nextId, OnUploadReq(g, s, path, size, declared, os);
    var k := FirstDisturbance(g, s0, id, es);
    var more := SpoilAt(g, s0, id, es, k);
    MildIsQuiet(g, From(g, s0, es[..k + 1]), id, more);
    DataOfPart(es, k, id);
    SpoiledIsNotSafe(g, s, path, size, declared, os, es, k + 1, more);
  }

  lemma {:induction false} DataOfPart(es: seq<Event>, k: nat, id: u32)
    requires k <= |es|
    ensures |BlockData(es[..k], id)| <= |BlockData(es, id)|
    decreases |es|
  {
    if k < |es| {
      DataOfPart(es[..|es| - 1], k, id);
      assert es[..|es| - 1][..k] == es[..k];
    } else {
      assert es[..k] == es;
    }
  }

  lemma {:induction false} OngoingJoin(g: Setting, s: State, id: u32, a: seq<Event>, b: seq<Event>)
    requires Ongoing(g, s, id, a) && Ongoing(g, From(g, s, a), id, b)
    ensures Ongoing(g, s, id, a + b)
    decreases |b|
  {
    if b == [] {
      assert a + b == a;
    } else {
      var n := |b| - 1;
      assert (a + b)[..|a + b| - 1] == a + b[..n];
      OngoingJoin(g, s, id, a, b[..n]);
      FromJoin(g, s, a, b[..n]);
    }
  }

  // The run diverges; the same run with the right size and hash declared is the one that is not safe.
  lemma SpoiledIsNotSafe(g: Setting, s: State, path: Blob, size: u64, declared: Hash256, os: Os,
                         es: seq<Event>, k: nat, more: seq<Event>)
    requires CanTransfer(g) && g.resolve(path).Some? && os.open && k <= |es|
    requires var (s0, id) := (OnUploadReq(g, s, path, size, declared, os), s.nextId);
      && Ongoing(g, s0, id, es)
      && Ongoing(g, From(g, s0, es[..k]), id, more) && Undisturbed(g, From(g, s0, es[..k]), id, more)
      && var s2 := From(g, s0, es[..k] + more);
         && Diverged(s2, id) && Alone(s2, id) && s2.uploads[id].hashed == BlockData(es[..k] + more, id)
         && |BlockData(es[..k] + more, id)| < 0x1_0000_0000_0000_0000
    ensures !SafeThroughout(g, s, path, os, es)
  {
    var id, s0, front := s.nextId, OnUploadReq(g, s, path, size, declared, os), es[..k];
    var data := BlockData(front + more, id);
    var n: u64, h := |data|, g.sha(data);
    var t := OnUploadReq(g, s, path, n, h, os);
    RequestRedeclared(g, s, path, size, declared, n, h, os);
    QuietPrefix(g, s0, id, es, k);
    RedeclareRun(g, s0, id, n, h, front);
    RedeclareRun(g, From(g, s0, front), id, n, h, more);
    OngoingJoin(g, s0, id, front, more);
    RedeclareRun(g, s0, id, n, h, front + more);
    DivergedIsNotSafe(g, t, id, front, more, data);
    assert !SafeAt(g, OnUploadReq(g, s, path, n, h, os), id, es[..k], more);
  }

  lemma SharedFromTheStart(g: Setting, s: State, path: Blob, size: u64, declared: Hash256, os: Os, es: seq<Event>)
    requires CanTransfer(g) && g.resolve(path).Some? && os.open && s.nextId !in s.uploads
    requires g.resolve(path).value + PART in Temps(s)
    requires Ongoing(g, OnUploadReq(g, s, path, size, declared, os), s.nextId, es)
    ensures !SafeThroughout(g, s, path, os, es)
  {
    var id, s0 := s.nextId, OnUploadReq(g, s, path, size, declared, os);
    var j :| j in s.uploads && s.uploads[j].tempPath == g.resolve(path).value + PART;
    var a := SharedDiverges(g, s0, id, j);
    var b := CloseOthers(g, From(g, s0, a), id);
    var more := a + b;
    FromJoin(g, s0, a, b);
    BlockDataJoin(a, b, id);
    assert [] + BlockData(a, id) == BlockData(a, id) + [];
    MildIsQuiet(g, s0, id, more);
    assert es[..0] + more == more;
    SpoiledIsNotSafe(g, s, path, size, declared, os, es, 0, more);
  }

  // ----------------------------------------------------- over whole sessions

  lemma {:induction false} OngoingSince(g: Setting, disk: Disk, es: seq<Event>, k: nat, id: u32)
    requires NumberedRun(g, disk, es) && 0 < k <= |es| && HeldSince(g, disk, es, k, id)
    ensures Ongoing(g, After(g, disk, es[..k]), id, es[k..])
    ensures After(g, disk, es) == From(g, After(g, disk, es[..k]), es[k..])
    decreases |es|
  {
    assert es == es[..k] + es[k..];
    FromJoin(g, Fresh(disk), es[..k], es[k..]);
    if k < |es| {
      var n := |es| - 1;
      NumberedPrefix(g, disk, es, n);
      HeldExtends(g, disk, es, k, id);
      OngoingSince(g, disk, es[..n], k, id);
      NumbersAreFresh(g, disk, es[..n]);
      assert es[..n][..k] == es[..k] && es[k..][..|es[k..]| - 1] == es[..n][k..];
      assert es[..n][..n] == es[..n] && id in After(g, disk, es[..n][..n]).uploads;
    }
  }

  /** A completion that goes through, at any point of any session: besides the temporary file
      only the file its request named changes; the blocks sent under its id have the length
      and the hash declared, and that hash is the row's; and if no upload had the temporary
      name before and nothing has interfered since, those blocks are what the file holds. */
  lemma CompletedUploadIsExact(g: Setting, disk: Disk, es: seq<Event>, id: u32, os: Os) returns (k: nat)
    requires NumberedRun(g, disk, es) && Succeeds(g, After(g, disk, es), id, os)
    ensures 0 < k <= |es| && es[k - 1].m.File? && es[k - 1].m.file.FileUploadReq?
    ensures var (s0, req, data) := (After(g, disk, es[..k - 1]), es[k - 1].m.file, BlockData(es[k..], id));
      var (s, s') := (After(g, disk, es), OnComplete(g, After(g, disk, es), id, os));
      && s0.nextId == id && g.resolve(req.path).Some? && |data| == req.size && g.sha(data) == req.sha256
      && var dest := g.resolve(req.path).value;
         && s'.rows == s.rows + [Row(Audit.FileUpload, One(dest), OK, Some(g.sha(data)))]
         && dest in s'.disk && s'.disk == (s.disk - {dest + PART})[dest := s'.disk[dest]]
         && (dest + PART !in Temps(s0) && Undisturbed(g, After(g, disk, es[..k]), id, es[k..]) ==>
               s'.disk[dest] == data)
  {
    var s := After(g, disk, es);
    AlwaysRegular(g, disk, es);
    assert RegularUpload(s.uploads[id]);
    k := UploadHoldsItsBlocks(g, disk, es, id);
    var s0, req := After(g, disk, es[..k - 1]), es[k - 1];
    OngoingSince(g, disk, es, k, id);
    if s.uploads[id].tempPath !in Temps(s0) && Undisturbed(g, After(g, disk, es[..k]), id, es[k..]) {
      NumberedPrefix(g, disk, es, k - 1);
      NumbersAreFresh(g, disk, es[..k - 1]);
      assert es[..k][..k - 1] == es[..k - 1];
      AskedOpens(g, disk, es, k, id);
      RequestOwns(g, s0, req.m.file.path, req.m.file.size, req.m.file.sha256, req.os);
      OwnRun(g, After(g, disk, es[..k]), id, [], es[k..]);
      assert [] + BlockData(es[k..], id) == BlockData(es[k..], id);
    }
  }

  lemma AskedOpens(g: Setting, disk: Disk, es: seq<Event>, k: nat, id: u32)
    requires NumberedRun(g, disk, es) && 0 < k <= |es| && HeldSince(g, disk, es, k, id)
    requires After(g, disk, es[..k - 1]).nextId == id && es[k - 1].m.File? && es[k - 1].m.file.FileUploadReq?
    ensures Opens(g, es[k - 1].m, es[k - 1].os)
  {
    NumberedPrefix(g, disk, es, k - 1);
    NumbersAreFresh(g, disk, es[..k - 1]);
    assert es[..k][..k - 1] == es[..k - 1] && id in After(g, disk, es[..k]).uploads;
  }

  // ------------------------------------------------------- the shortest runs

  /** Why the temporary names must differ: two uploads to one path at a time share
      the temporary file, and the first to complete is verified, and logged, with
      the digest of its own block while the other's block is what lands. */
  lemma SharedTempFails(g: Setting, path: Blob, os: Os)
    requires CanTransfer(g) && g.resolve(path).Some? && os.open && os.rename
    ensures var h1, h2 := g.sha([1]), g.sha([2]);
      var s1 := OnUploadReq(g, Fresh(map[]), path, 1, h1, os);
      var s2 := OnUploadReq(g, s1, path, 1, h2, os);
      var s3 := OnComplete(g, OnBlock(OnBlock(s2, 1, [1]), 2, [2]), 1, os);
      var dest := g.resolve(path).value;
      && s3.rows == [Row(Audit.FileUpload, One(dest), OK, Some(h1))]
      && dest in s3.disk && s3.disk[dest] == [2]
  {
    var dest, h1, h2 := g.resolve(path).value, g.sha([1]), g.sha([2]);
    var temp := dest + PART;
    var s1 := OnUploadReq(g, Fresh(map[]), path, 1, h1, os);
    var s2 := OnUploadReq(g, s1, path, 1, h2, os);
    assert s1.uploads == map[1 := Upload(dest, temp, 1, h1, 0, [])] && s1.nextId == 2;
    assert s2.uploads == s1.uploads[2 := Upload(dest, temp, 1, h2, 0, [])];
    assert temp in s2.disk && s2.disk[temp] == [];
    var s3 := OnBlock(s2, 1, [1]);
    assert [] + [1] == [1] && WriteAt([], 0, [1]) == [1];
    assert s3.uploads[1] == Upload(dest, temp, 1, h1, 1, [1]) && s3.disk[temp] == [1];
    var s4 := OnBlock(s3, 2, [2]);
    assert WriteAt([1], 0, [2]) == [2];
    assert s4.uploads[1] == s3.uploads[1] && s4.disk[temp] == [2];
  }

  /** The same where a file that is open elsewhere cannot be renamed or removed: the other
      upload completes first, is refused both, and leaves its byte behind for the first. */
  lemma SharedTempFailsWhereOpenFilesAreKept(g: Setting, path: Blob)
    requires CanTransfer(g) && g.resolve(path).Some?
    ensures var h1, h2 := g.sha([1]), g.sha([2]);
      var (free, kept) := (Os(true, true, true), Os(true, false, false));
      var s1 := OnUploadReq(g, Fresh(map[]), path, 1, h1, free);
      var s2 := OnUploadReq(g, s1, path, 1, h2, free);
      var s3 := OnComplete(g, OnBlock(OnBlock(s2, 1, [1]), 2, [2]), 2, kept);
      var s4 := OnComplete(g, s3, 1, free);
      var dest := g.resolve(path).value;
      && s3.uploads.Keys == {1} && s4.uploads == map[]
      && s4.rows == [Row(Audit.FileUpload, One(dest), IO_ERROR, None)]
                    + [Row(Audit.FileUpload, One(dest), OK, Some(h1))]
      && dest in s4.disk && s4.disk[dest] == [2]
  {
    var dest, h1, h2 := g.resolve(path).value, g.sha([1]), g.sha([2]);
    var temp, free, kept := dest + PART, Os(true, true, true), Os(true, false, false);
    var s1 := OnUploadReq(g, Fresh(map[]), path, 1, h1, free);
    var s2 := OnUploadReq(g, s1, path, 1, h2, free);
    assert s2.uploads == map[1 := Upload(dest, temp, 1, h1, 0, [])][2 := Upload(dest, temp, 1, h2, 0, [])];
    var s := OnBlock(OnBlock(s2, 1, [1]), 2, [2]);
    BothBytes(s2, temp);
    KeptThenRenamed(g, s, dest, h1, h2);
  }

  lemma BothBytes(s: State, temp: string)
    requires 1 in s.uploads && 2 in s.uploads && s.uploads[1].tempPath == temp && s.uploads[2].tempPath == temp
    requires s.uploads[1].received == 0 && s.uploads[2].received == 0
    requires s.uploads[1].hashed == [] && s.uploads[2].hashed == []
    requires temp in s.disk && s.disk[temp] == []
    ensures var s' := OnBlock(OnBlock(s, 1, [1]), 2, [2]);
      && temp in s'.disk && s'.disk[temp] == [2] && s'.rows == s.rows
      && s'.uploads == s.uploads[1 := s.uploads[1].(received := 1, hashed := [1])]
                                [2 := s.uploads[2].(received := 1, hashed := [2])]
  {
    assert [] + [1] == [1] && [] + [2] == [2] && WriteAt([], 0, [1]) == [1] && WriteAt([1], 0, [2]) == [2];
    var s1 := OnBlock(s, 1, [1]);
    assert s1.uploads == s.uploads[1 := s.uploads[1].(received := 1, hashed := [1])] && s1.disk[temp] == [1];
  }

  lemma KeptThenRenamed(g: Setting, s: State, dest: string, h1: Hash256, h2: Hash256)
    requires h1 == g.sha([1]) && h2 == g.sha([2]) && s.rows == []
    requires s.uploads == map[1 := Upload(dest, dest + PART, 1, h1, 1, [1])]
                             [2 := Upload(dest, dest + PART, 1, h2, 1, [2])]
    requires dest + PART in s.disk && s.disk[dest + PART] == [2]
    ensures var s3 := OnComplete(g, s, 2, Os(true, false, false));
      var s4 := OnComplete(g, s3, 1, Os(true, true, true));
      && s3.uploads.Keys == {1} && s4.uploads == map[]
      && s4.rows == [Row(Audit.FileUpload, One(dest), IO_ERROR, None)]
                    + [Row(Audit.FileUpload, One(dest), OK, Some(h1))]
      && dest in s4.disk && s4.disk[dest] == [2]
  {
    var s3 := OnComplete(g, s, 2, Os(true, false, false));
    assert s3.uploads == map[1 := Upload(dest, dest + PART, 1, h1, 1, [1])] && s3.disk == s.disk;
    assert s3.rows == [] + [Row(Audit.FileUpload, One(dest), IO_ERROR, None)];
    assert s3.uploads - {1} == map[];
  }
}
