/**
 What the upload transaction promises, in every run, whatever its messages name and
 whatever the operating system refuses: which steps change which files, which steps the
 audit rows tell of, what an upload holds, and what the end of the session leaves behind.
 */
module Transactions {
  import opened Util
  import opened Protocol
  import opened Session
  import Audit

  function Temps(s: State): set<string> {
    set id | id in s.uploads :: s.uploads[id].tempPath
  }

  // The disk without the temporary files of uploads in progress.
  function Visible(s: State): Disk { s.disk - Temps(s) }

  // What an upload keeps to all its life.
  predicate RegularUpload(u: Upload) { u.tempPath == u.finalPath + PART && u.received == |u.hashed| }

  ghost predicate Regular(s: State) { forall id | id in s.uploads :: RegularUpload(s.uploads[id]) }

  // The message is an upload request the server accepts.
  predicate Opens(g: Setting, m: Msg, os: Os) {
    m.File? && m.file.FileUploadReq? && CanTransfer(g) && g.resolve(m.file.path).Some? && os.open
  }

  // The path an accepted request names.
  function Dest(g: Setting, m: Msg, os: Os): string
    requires Opens(g, m, os)
  {
    g.resolve(m.file.path).value
  }

  // The upload goes through: sizes and hashes agree and the rename works.
  predicate Succeeds(g: Setting, s: State, id: u32, os: Os) {
    id in s.uploads && os.rename && s.uploads[id].tempPath in s.disk
    && s.uploads[id].received == s.uploads[id].expected && g.sha(s.uploads[id].hashed) == s.uploads[id].declared
  }

  // The move goes through.
  predicate Moves(g: Setting, s: State, from: Blob, to: Blob, os: Os) {
    CanTransfer(g) && g.resolve(from).Some? && g.resolve(to).Some? && g.resolve(from).value in s.disk && os.rename
  }

  // ------------------------------------------------- what steps do to the files

  // The state but for one upload.
  function Forgetting(s: State, id: u32): State { s.(uploads := s.uploads - {id}) }

  // The upload has a file that shows once the upload is forgotten.
  predicate Hides(s: State, id: u32) {
    id in s.uploads && s.uploads[id].tempPath in s.disk && s.uploads[id].tempPath !in Temps(Forgetting(s, id))
  }

  lemma SameTemps(s: State, s': State)
    requires s'.uploads.Keys == s.uploads.Keys
    requires forall j | j in s.uploads :: s'.uploads[j].tempPath == s.uploads[j].tempPath
    ensures Temps(s') == Temps(s)
  {
    forall p | p in Temps(s) ensures p in Temps(s') {
      var j :| j in s.uploads && s.uploads[j].tempPath == p;
      assert s'.uploads[j].tempPath == p;
    }
    forall p | p in Temps(s') ensures p in Temps(s) {
      var j :| j in s'.uploads && s'.uploads[j].tempPath == p;
      assert s.uploads[j].tempPath == p;
    }
  }

  // The temporary names are those of the other uploads and the upload's own.
  lemma OneTemp(s: State, id: u32)
    requires id in s.uploads
    ensures Temps(s) == Temps(Forgetting(s, id)) + {s.uploads[id].tempPath}
  {
    var rest := Forgetting(s, id);
    forall p | p in Temps(s) ensures p in Temps(rest) + {s.uploads[id].tempPath} {
      var j :| j in s.uploads && s.uploads[j].tempPath == p;
      if j != id { assert rest.uploads[j].tempPath == p; }
    }
    forall p | p in Temps(rest) ensures p in Temps(s) {
      var j :| j in rest.uploads && rest.uploads[j].tempPath == p;
      assert s.uploads[j].tempPath == p;
    }
    assert s.uploads[id].tempPath in Temps(s);
  }

  // An accepted request makes the file with the temporary name invisible; and if the numbers
  // have wrapped and the upload's is that of another one, that one is forgotten.
  lemma OpenStep(g: Setting, s: State, m: Msg, os: Os)
    requires Opens(g, m, os)
    ensures Visible(Handle(g, s, m, os)) == Visible(Forgetting(s, s.nextId)) - {Dest(g, m, os) + PART}
  {
    var s', id := Handle(g, s, m, os), s.nextId;
    assert Forgetting(s', id).uploads == Forgetting(s, id).uploads;
    SameTemps(Forgetting(s, id), Forgetting(s', id));
    OneTemp(s', id);
  }

  lemma BlockStep(s: State, id: u32, data: Blob)
    ensures Visible(OnBlock(s, id, data)) == Visible(s)
  {
    if id in s.uploads {
      assert s.uploads[id].tempPath in Temps(s);
      SameTemps(s, OnBlock(s, id, data));
    }
  }

  /** A completion puts the temporary file at the final path exactly when size, hash and
      rename are right; otherwise no visible file changes, unless the operating system
      refuses to remove the temporary file, which then shows if no other upload has it. */
  lemma CompleteStep(g: Setting, s: State, id: u32, os: Os)
    requires Regular(s)
    ensures Visible(OnComplete(g, s, id, os)) ==
      if Succeeds(g, s, id, os) then
        var u := s.uploads[id];
        if u.finalPath in Temps(s) then Visible(s) else Visible(s)[u.finalPath := s.disk[u.tempPath]]
      else if Hides(s, id) && !os.remove then Visible(s)[s.uploads[id].tempPath := s.disk[s.uploads[id].tempPath]]
      else Visible(s)
  {
    if id in s.uploads {
      var s', u := OnComplete(g, s, id, os), s.uploads[id];
      assert RegularUpload(u) && |u.tempPath| == |u.finalPath| + 5;
      OneTemp(s, id);
      assert s'.uploads == Forgetting(s, id).uploads;
      SameTemps(Forgetting(s, id), s');
    }
  }

  /** Exactly which messages change which visible files without being a completion, a
      deletion or a move: accepted requests, and they take over a file with the
      temporary name. */
  lemma OnlyThreeMessagesChangeFiles(g: Setting, s: State, m: Msg, os: Os)
    requires m.File? ==> !m.file.FileComplete? && !m.file.FileDelete? && !m.file.FileMove?
    ensures Visible(Handle(g, s, m, os)) ==
      if Opens(g, m, os) then Visible(Forgetting(s, s.nextId)) - {Dest(g, m, os) + PART} else Visible(s)
  {
    if Opens(g, m, os) {
      OpenStep(g, s, m, os);
    } else if m.File? {
      match m.file
      case FileUploadReq(_, _, _) => SameTemps(s, Handle(g, s, m, os));
      case FileBlock(id, _, data) => BlockStep(s, id, data);
      case FileDownloadReq(_) => SameTemps(s, Handle(g, s, m, os));
      case _ =>
    }
  }

  // ----------------------------------------------------------- replaying rows

  type Digests = map<string, Hash256>

  function DigestsOf(sha: Sha256, disk: Disk): Digests { map p | p in disk :: sha(disk[p]) }

  // The effect on the files an audit row tells of: only OK rows of three kinds tell of one.
  function ReplayRow(d: Digests, r: Row): Digests {
    if r.result != OK then d else
      match (r.action, r.target, r.digest)
      case (FileUpload, One(path), Some(h)) => d[path := h]
      case (FileDelete, One(path), _) => d - {path}
      case (FileMove, Two(src, dst), _) => if src in d then (d - {src})[dst := d[src]] else d
      case _ => d
  }

  function Replay(d: Digests, rows: seq<Row>): Digests {
    if rows == [] then d else ReplayRow(Replay(d, rows[..|rows| - 1]), rows[|rows| - 1])
  }

  lemma ReplayOneMore(d: Digests, rows: seq<Row>, r: Row)
    ensures Replay(d, rows + [r]) == ReplayRow(Replay(d, rows), r)
  {
    assert (rows + [r])[..|rows|] == rows;
  }

  lemma {:induction false} ReplayJoin(d: Digests, a: seq<Row>, b: seq<Row>)
    ensures Replay(d, a + b) == Replay(Replay(d, a), b)
    decreases |b|
  {
    if b == [] {
      assert a + b == a;
    } else {
      assert (a + b)[..|a + b| - 1] == a + b[..|b| - 1];
      ReplayJoin(d, a, b[..|b| - 1]);
    }
  }

  // The rows a step adds, replayed over the files before it, give the files after it.
  ghost predicate Told(g: Setting, s: State, s': State) {
    s.rows <= s'.rows && DigestsOf(g.sha, Visible(s')) == Replay(DigestsOf(g.sha, Visible(s)), s'.rows[|s.rows|..])
  }

  // A step that logs at most one row, and what it takes for that row to tell the step.
  lemma ToldBy(g: Setting, s: State, s': State, row: Option<Row>)
    requires s'.rows == s.rows + if row.Some? then [row.value] else []
    ensures s.rows <= s'.rows
    ensures var d := DigestsOf(g.sha, Visible(s));
      Told(g, s, s') <==> DigestsOf(g.sha, Visible(s')) == if row.Some? then ReplayRow(d, row.value) else d
  {
    if row.Some? {
      assert s'.rows[|s.rows|..] == [] + [row.value];
      ReplayOneMore(DigestsOf(g.sha, Visible(s)), [], row.value);
    } else {
      assert s'.rows[|s.rows|..] == [];
    }
  }

  // ------------------------------------------------ the steps that are not told

  // The request empties and takes over a file with the temporary name, or, the numbers having
  // wrapped, uncovers the temporary file of an upload that had its number.
  predicate RequestMisstates(s: State, temp: string) {
    || (temp in s.disk && temp !in Temps(s))
    || (Hides(s, s.nextId) && s.uploads[s.nextId].tempPath != temp)
  }

  // The completion renames onto the temporary file of an upload, or renames what is not what
  // was hashed; or it fails and the temporary file, of no other upload, is not removed.
  predicate CompletionMisstates(g: Setting, s: State, id: u32, os: Os) {
    if Succeeds(g, s, id, os) then
      s.uploads[id].finalPath in Temps(s) || g.sha(s.disk[s.uploads[id].tempPath]) != g.sha(s.uploads[id].hashed)
    else
      Hides(s, id) && !os.remove
  }

  // The move takes a temporary file out, other than onto a file with the same digest, or
  // moves a file onto a temporary one.
  predicate MoveMisstates(sha: Sha256, disk: Disk, temps: set<string>, src: string, dst: string)
    requires src in disk
  {
    if src in temps then dst !in temps && (dst in disk ==> sha(disk[dst]) != sha(disk[src])) else dst in temps
  }

  // The steps whose row, or want of one, misstates what they did to the files.
  predicate Misstates(g: Setting, s: State, m: Msg, os: Os) {
    match m
    case File(FileUploadReq(_, _, _)) => Opens(g, m, os) && RequestMisstates(s, Dest(g, m, os) + PART)
    case File(FileComplete(id)) => CompletionMisstates(g, s, id, os)
    case File(FileMove(from, to)) =>
      Moves(g, s, from, to, os)
      && MoveMisstates(g.sha, s.disk, Temps(s), g.resolve(from).value, g.resolve(to).value)
    case _ => false
  }

  lemma RequestTold(g: Setting, s: State, m: Msg, os: Os)
    requires Opens(g, m, os)
    ensures var s' := Handle(g, s, m, os);
      s.rows <= s'.rows && (Told(g, s, s') <==> !RequestMisstates(s, Dest(g, m, os) + PART))
  {
    var s', id, temp := Handle(g, s, m, os), s.nextId, Dest(g, m, os) + PART;
    var rest := Forgetting(s, id);
    OpenStep(g, s, m, os);
    if id in s.uploads { OneTemp(s, id); } else { SameTemps(s, rest); }
    ToldBy(g, s, s', None);
    SameContent(g.sha, s.disk, Temps(s), Temps(rest) + {temp});
    assert Visible(rest) - {temp} == s.disk - (Temps(rest) + {temp});
  }

  // What is shown of one disk has the same digests exactly when it is the same files.
  lemma SameContent(sha: Sha256, disk: Disk, a: set<string>, b: set<string>)
    ensures DigestsOf(sha, disk - a) == DigestsOf(sha, disk - b) <==> forall p | p in disk :: p in a <==> p in b
  {
    var x, y := DigestsOf(sha, disk - a), DigestsOf(sha, disk - b);
    forall p | p in disk ensures (p in x <==> p !in a) && (p in y <==> p !in b) { }
    if x == y {
      forall p | p in disk ensures p in a <==> p in b { assert p in x <==> p in y; }
    }
  }

  lemma CompletionTold(g: Setting, s: State, id: u32, os: Os)
    requires Regular(s)
    ensures var s' := OnComplete(g, s, id, os);
      s.rows <= s'.rows && (Told(g, s, s') <==> !CompletionMisstates(g, s, id, os))
  {
    var s' := OnComplete(g, s, id, os);
    CompleteStep(g, s, id, os);
    if id !in s.uploads {
      ToldBy(g, s, s', None);
    } else {
      var u, row := s.uploads[id], s'.rows[|s.rows|];
      ToldBy(g, s, s', Some(row));
      if Succeeds(g, s, id, os) {
        assert row == Row(Audit.FileUpload, One(u.finalPath), OK, Some(g.sha(u.hashed)));
        OnePut(g.sha, Visible(s), u.finalPath, s.disk[u.tempPath], g.sha(u.hashed));
        if u.finalPath in Temps(s) { assert u.finalPath !in DigestsOf(g.sha, Visible(s)); }
      } else if Hides(s, id) && !os.remove {
        assert u.tempPath in Temps(s) && u.tempPath !in DigestsOf(g.sha, Visible(s));
      }
    }
  }

  lemma OnePut(sha: Sha256, disk: Disk, p: string, content: Bytes, h: Hash256)
    ensures DigestsOf(sha, disk[p := content]) == DigestsOf(sha, disk)[p := h] <==> sha(content) == h
  {
    var x, y := DigestsOf(sha, disk[p := content]), DigestsOf(sha, disk)[p := h];
    assert x[p] == sha(content) && y[p] == h;
  }

  lemma QuietTold(g: Setting, s: State, s': State, row: Option<Row>)
    requires s'.rows == s.rows + if row.Some? then [row.value] else []
    requires row.Some? ==> row.value.result != OK || row.value.action == Audit.FileDownload
    requires Visible(s') == Visible(s)
    ensures s.rows <= s'.rows && Told(g, s, s')
  {
    ToldBy(g, s, s', row);
  }

  lemma DeletionTold(g: Setting, s: State, path: Blob, os: Os)
    ensures s.rows <= OnDelete(g, s, path, os).rows && Told(g, s, OnDelete(g, s, path, os))
  {
    var s' := OnDelete(g, s, path, os);
    if CanTransfer(g) && g.resolve(path).Some? && g.resolve(path).value in s.disk && os.remove {
      DeletedTold(g, s, s', g.resolve(path).value);
    } else {
      assert s'.disk == s.disk && Temps(s') == Temps(s);
      QuietTold(g, s, s', Some(s'.rows[|s.rows|]));
    }
  }

  lemma DeletedTold(g: Setting, s: State, s': State, target: string)
    requires s'.uploads == s.uploads && s'.disk == s.disk - {target}
    requires s'.rows == s.rows + [Row(Audit.FileDelete, One(target), OK, None)]
    ensures s.rows <= s'.rows && Told(g, s, s')
  {
    assert Temps(s') == Temps(s);
    ToldBy(g, s, s', Some(Row(Audit.FileDelete, One(target), OK, None)));
    OneDropped(g.sha, s.disk, Temps(s), target);
  }

  lemma OneDropped(sha: Sha256, disk: Disk, temps: set<string>, p: string)
    ensures DigestsOf(sha, disk - {p} - temps) == DigestsOf(sha, disk - temps) - {p}
  {
  }

  lemma MoveTold(g: Setting, s: State, from: Blob, to: Blob, os: Os)
    ensures var (s', m) := (OnMove(g, s, from, to, os), File(FileMove(from, to)));
      s.rows <= s'.rows && (Told(g, s, s') <==> !Misstates(g, s, m, os))
  {
    var s' := OnMove(g, s, from, to, os);
    if Moves(g, s, from, to, os) {
      MovedTold(g, s, s', g.resolve(from).value, g.resolve(to).value);
    } else {
      assert s'.disk == s.disk && Temps(s') == Temps(s);
      QuietTold(g, s, s', Some(s'.rows[|s.rows|]));
    }
  }

  lemma MovedTold(g: Setting, s: State, s': State, src: string, dst: string)
    requires src in s.disk && s'.uploads == s.uploads && s'.disk == Rename(s.disk, src, dst)
    requires s'.rows == s.rows + [Row(Audit.FileMove, Two(src, dst), OK, None)]
    ensures s.rows <= s'.rows && (Told(g, s, s') <==> !MoveMisstates(g.sha, s.disk, Temps(s), src, dst))
  {
    assert Temps(s') == Temps(s);
    ToldBy(g, s, s', Some(Row(Audit.FileMove, Two(src, dst), OK, None)));
    RenameTold(g.sha, s.disk, Temps(s), src, dst);
  }

  lemma RenameTold(sha: Sha256, disk: Disk, temps: set<string>, src: string, dst: string)
    requires src in disk
    ensures var d := DigestsOf(sha, disk - temps);
      DigestsOf(sha, Rename(disk, src, dst) - temps) == (if src in d then (d - {src})[dst := d[src]] else d)
      <==> !MoveMisstates(sha, disk, temps, src, dst)
  {
    var d, d' := DigestsOf(sha, disk - temps), DigestsOf(sha, Rename(disk, src, dst) - temps);
    assert src in d <==> src !in temps;
    if src in temps && dst in temps {
      assert Rename(disk, src, dst) - temps == disk - temps;
    } else if src in temps {
      assert Rename(disk, src, dst) - temps == (disk - temps)[dst := disk[src]];
      OnePut(sha, disk - temps, dst, disk[src], if dst in disk then sha(disk[dst]) else sha(disk[src]));
      assert dst in d' && d'[dst] == sha(disk[src]);
      assert dst in disk ==> d[dst := sha(disk[dst])] == d;
    } else if dst in temps {
      assert dst !in d' && dst in (d - {src})[dst := d[src]];
    } else {
      assert Rename(disk, src, dst) - temps == (disk - temps - {src})[dst := disk[src]];
      OnePut(sha, disk - temps - {src}, dst, disk[src], sha(disk[src]));
      OneDropped(sha, disk, temps, src);
      assert disk - temps - {src} == disk - {src} - temps;
    }
  }

  // Every other message is told of, and mostly by no row.
  lemma OtherTold(g: Setting, s: State, m: Msg, os: Os)
    requires m.File? ==> !m.file.FileComplete? && !m.file.FileDelete? && !m.file.FileMove? && !Opens(g, m, os)
    ensures s.rows <= Handle(g, s, m, os).rows && Told(g, s, Handle(g, s, m, os))
  {
    var s' := Handle(g, s, m, os);
    OnlyThreeMessagesChangeFiles(g, s, m, os);
    QuietTold(g, s, s', if |s'.rows| > |s.rows| then Some(s'.rows[|s.rows|]) else None);
  }

  /** One step, whatever the message and the state: its row, or its want of one, tells what
      happened to the files if and only if it is not one of those above. */
  lemma ToldExactlyWhen(g: Setting, s: State, m: Msg, os: Os)
    requires Regular(s)
    ensures var s' := Handle(g, s, m, os);
      s.rows <= s'.rows && (Told(g, s, s') <==> !Misstates(g, s, m, os))
  {
    match m
    case File(FileComplete(id)) => CompletionTold(g, s, id, os);
    case File(FileDelete(path)) => DeletionTold(g, s, path, os);
    case File(FileMove(from, to)) => MoveTold(g, s, from, to, os);
    case _ => if Opens(g, m, os) { RequestTold(g, s, m, os); } else { OtherTold(g, s, m, os); }
  }

  lemma StaysRegular(g: Setting, s: State, m: Msg, os: Os)
    requires Regular(s)
    ensures Regular(Handle(g, s, m, os))
  {
    if m.File? {
      match m.file
      case FileUploadReq(path, size, declared) =>
      case FileBlock(id, k, data) => if id in s.uploads { assert RegularUpload(s.uploads[id]); }
      case FileComplete(id) =>
      case FileDelete(path) =>
      case FileMove(from, to) =>
      case FileDownloadReq(path) =>
      case _ =>
    }
  }

  // --------------------------------------------------------------------- runs

  // A message with what the operating system does about it.
  datatype Event = Event(m: Msg, os: Os)

  function From(g: Setting, s: State, es: seq<Event>): State {
    if es == [] then s else
      Handle(g, From(g, s, es[..|es| - 1]), es[|es| - 1].m, es[|es| - 1].os)
  }

  // A whole session, from its start.
  function After(g: Setting, disk: Disk, es: seq<Event>): State { From(g, Fresh(disk), es) }

  lemma {:induction false} FromJoin(g: Setting, s: State, a: seq<Event>, b: seq<Event>)
    ensures From(g, s, a + b) == From(g, From(g, s, a), b)
    decreases |b|
  {
    if b == [] {
      assert a + b == a;
    } else {
      assert (a + b)[..|a + b| - 1] == a + b[..|b| - 1];
      FromJoin(g, s, a, b[..|b| - 1]);
    }
  }

  lemma {:induction false} AlwaysRegular(g: Setting, disk: Disk, es: seq<Event>)
    ensures Regular(After(g, disk, es))
    decreases |es|
  {
    if es != [] {
      AlwaysRegular(g, disk, es[..|es| - 1]);
      StaysRegular(g, After(g, disk, es[..|es| - 1]), es[|es| - 1].m, es[|es| - 1].os);
    }
  }

  predicate MisstatesAt(g: Setting, disk: Disk, es: seq<Event>, i: nat)
    requires i < |es|
  {
    Misstates(g, After(g, disk, es[..i]), es[i].m, es[i].os)
  }

  // Replaying the rows over the digests of the initial files gives those of the present ones.
  ghost predicate RowsTell(g: Setting, disk: Disk, es: seq<Event>) {
    DigestsOf(g.sha, Visible(After(g, disk, es))) == Replay(DigestsOf(g.sha, disk), After(g, disk, es).rows)
  }

  lemma RowsTellOneMore(g: Setting, disk: Disk, es: seq<Event>)
    requires es != [] && RowsTell(g, disk, es[..|es| - 1])
    ensures RowsTell(g, disk, es) <==> !MisstatesAt(g, disk, es, |es| - 1)
  {
    var n := |es| - 1;
    var s, s' := After(g, disk, es[..n]), After(g, disk, es);
    AlwaysRegular(g, disk, es[..n]);
    ToldExactlyWhen(g, s, es[n].m, es[n].os);
    assert s'.rows == s.rows + s'.rows[|s.rows|..];
    ReplayJoin(DigestsOf(g.sha, disk), s.rows, s'.rows[|s.rows|..]);
  }

  /** The rows are a faithful history, name for name and digest for digest, of every
      run with no step that misstates. */
  lemma {:induction false} RowsAreTheHistory(g: Setting, disk: Disk, es: seq<Event>)
    requires forall i | 0 <= i < |es| :: !MisstatesAt(g, disk, es, i)
    ensures RowsTell(g, disk, es)
    decreases |es|
  {
    if es == [] {
      assert Visible(Fresh(disk)) == disk;
    } else {
      var n := |es| - 1;
      forall i | 0 <= i < n ensures !MisstatesAt(g, disk, es[..n], i) {
        assert !MisstatesAt(g, disk, es, i) && es[..n][..i] == es[..i];
      }
      RowsAreTheHistory(g, disk, es[..n]);
      RowsTellOneMore(g, disk, es);
    }
  }

  /** And of no other: the rows tell the files at every point of a run if and only if no
      step of it misstates. */
  lemma RowsTellExactlyWhen(g: Setting, disk: Disk, es: seq<Event>)
    ensures (forall n | 0 <= n <= |es| :: RowsTell(g, disk, es[..n]))
       <==> (forall i | 0 <= i < |es| :: !MisstatesAt(g, disk, es, i))
  {
    if forall i | 0 <= i < |es| :: !MisstatesAt(g, disk, es, i) {
      forall n | 0 <= n <= |es| ensures RowsTell(g, disk, es[..n]) { ToldSoFar(g, disk, es, n); }
    }
    if forall n | 0 <= n <= |es| :: RowsTell(g, disk, es[..n]) {
      forall i | 0 <= i < |es| ensures !MisstatesAt(g, disk, es, i) {
        assert RowsTell(g, disk, es[..i]) && RowsTell(g, disk, es[..i + 1]);
        assert es[..i + 1][..i] == es[..i];
        RowsTellOneMore(g, disk, es[..i + 1]);
      }
    }
  }

  lemma ToldSoFar(g: Setting, disk: Disk, es: seq<Event>, n: nat)
    requires n <= |es| && forall i | 0 <= i < |es| :: !MisstatesAt(g, disk, es, i)
    ensures RowsTell(g, disk, es[..n])
  {
    forall i | 0 <= i < n ensures !MisstatesAt(g, disk, es[..n], i) {
      assert !MisstatesAt(g, disk, es, i) && es[..n][..i] == es[..i];
    }
    RowsAreTheHistory(g, disk, es[..n]);
  }

  // A whole upload of an empty file under this path, given this id.
  function EmptyUpload(g: Setting, path: Blob, id: u32, os: Os): seq<Event> {
    [Event(File(FileUploadReq(path, 0, g.sha([]))), os)] + [Event(File(FileComplete(id)), os)]
  }

  // What it leaves: the file under its name, whatever had the temporary name gone, one row.
  function EmptyUploaded(g: Setting, s: State, dest: string): State {
    State((s.disk - {dest + PART})[dest := []], map[], Next(s.nextId),
          s.rows + [Row(Audit.FileUpload, One(dest), OK, Some(g.sha([])))],
          s.replies + [File(FileAccept(s.nextId, 0, NoHash()))] + [File(FileVerify(s.nextId, ST_OK))], s.injected)
  }

  lemma EmptyUploadGoesThrough(g: Setting, s: State, path: Blob, os: Os)
    requires CanTransfer(g) && g.resolve(path).Some? && os == Os(true, true, true) && s.uploads == map[]
    ensures From(g, s, EmptyUpload(g, path, s.nextId, os)) == EmptyUploaded(g, s, g.resolve(path).value)
  {
    var dest, id := g.resolve(path).value, s.nextId;
    var temp := dest + PART;
    var es := EmptyUpload(g, path, id, os);
    var s1 := OnUploadReq(g, s, path, 0, g.sha([]), os);
    assert es[..1] == [es[0]] && es[..1][..0] == [];
    assert From(g, s, es[..1]) == s1;
    assert temp != dest by { assert |temp| == |dest| + 5; }
    assert s1.uploads == map[id := Upload(dest, temp, 0, g.sha([]), 0, [])];
    assert s1.uploads - {id} == map[];
    assert Rename(s1.disk, temp, dest) == (s.disk - {temp})[dest := []];
  }

  /** Such a step needs no crash and no refusal: from any state without uploads, one client
      that uploads "x.part" and then "x" leaves only x, while the two OK rows, replayed
      over whatever files there were, tell of both. */
  lemma RowsCanMisstate(g: Setting, s: State, part: Blob, path: Blob, os: Os)
    requires CanTransfer(g) && g.resolve(path).Some? && os == Os(true, true, true) && s.uploads == map[]
    requires g.resolve(part) == Some(g.resolve(path).value + PART)
    ensures var (dest, s1) := (g.resolve(path).value, From(g, s, EmptyUpload(g, part, s.nextId, os)));
      var s2 := From(g, s1, EmptyUpload(g, path, s1.nextId, os));
      && dest in s2.disk && dest + PART !in s2.disk && s2.uploads == map[]
      && s.rows <= s2.rows && dest + PART in Replay(DigestsOf(g.sha, s.disk), s2.rows[|s.rows|..])
  {
    var dest := g.resolve(path).value;
    EmptyUploadGoesThrough(g, s, part, os);
    EmptyUploadGoesThrough(g, EmptyUploaded(g, s, dest + PART), path, os);
    TwoUploads(g, s, dest + PART, dest);
  }

  lemma TwoUploads(g: Setting, s: State, a: string, b: string)
    requires a == b + PART
    ensures var s2 := EmptyUploaded(g, EmptyUploaded(g, s, a), b);
      && b in s2.disk && a !in s2.disk && s.rows <= s2.rows
      && a in Replay(DigestsOf(g.sha, s.disk), s2.rows[|s.rows|..])
  {
    var d := DigestsOf(g.sha, s.disk);
    var r1 := Row(Audit.FileUpload, One(a), OK, Some(g.sha([])));
    var r2 := Row(Audit.FileUpload, One(b), OK, Some(g.sha([])));
    assert EmptyUploaded(g, EmptyUploaded(g, s, a), b).rows[|s.rows|..] == [] + [r1] + [r2];
    ReplayOneMore(d, [], r1);
    ReplayOneMore(d, [] + [r1], r2);
  }

  // ---------------------------------------------------------- upload contents

  lemma WriteAtEnd(content: Bytes, data: Bytes)
    ensures WriteAt(content, |content|, data) == content + data
  {
    assert content[..|content|] == content;
  }

  // What a message brings to the upload with this id.
  function BlockOf(m: Msg, id: u32): Bytes {
    match m
    case File(FileBlock(i, _, data)) => if i == id then data else []
    case _ => []
  }

  // The data of all blocks carrying this id, in order of arrival.
  function BlockData(es: seq<Event>, id: u32): Bytes {
    if es == [] then [] else BlockData(es[..|es| - 1], id) + BlockOf(es[|es| - 1].m, id)
  }

  // The upload was asked for by event k - 1, which was given this id.
  ghost predicate AskedAt(g: Setting, disk: Disk, es: seq<Event>, k: nat, id: u32, u: Upload) {
    && 0 < k <= |es| && After(g, disk, es[..k - 1]).nextId == id
    && es[k - 1].m.File? && es[k - 1].m.file.FileUploadReq?
    && var req := es[k - 1].m.file;
       g.resolve(req.path) == Some(u.finalPath) && u.expected == req.size && u.declared == req.sha256
  }

  // A transfer that starts gets a number that has not wrapped.
  predicate Numbered(g: Setting, s: State, m: Msg, os: Os) {
    Opens(g, m, os) || (m.File? && m.file.FileDownloadReq?) ==> s.nextId < 0xFFFF_FFFF
  }

  ghost predicate NumberedAt(g: Setting, disk: Disk, es: seq<Event>, i: nat)
    requires i < |es|
  {
    Numbered(g, After(g, disk, es[..i]), es[i].m, es[i].os)
  }

  // Fewer transfers than there are numbers for.
  ghost predicate NumberedRun(g: Setting, disk: Disk, es: seq<Event>) {
    forall i | 0 <= i < |es| :: NumberedAt(g, disk, es, i)
  }

  lemma NumberedPrefix(g: Setting, disk: Disk, es: seq<Event>, n: nat)
    requires NumberedRun(g, disk, es) && n <= |es|
    ensures NumberedRun(g, disk, es[..n])
    ensures n < |es| ==> Numbered(g, After(g, disk, es[..n]), es[n].m, es[n].os)
  {
    forall i | 0 <= i < n ensures NumberedAt(g, disk, es[..n], i) {
      assert NumberedAt(g, disk, es, i) && es[..n][..i] == es[..i];
    }
    if n < |es| { assert NumberedAt(g, disk, es, n); }
  }

  // The number of the next transfer is above those of the uploads in progress.
  lemma {:induction false} NumbersAreFresh(g: Setting, disk: Disk, es: seq<Event>)
    requires NumberedRun(g, disk, es)
    ensures forall id | id in After(g, disk, es).uploads :: id < After(g, disk, es).nextId
    decreases |es|
  {
    if es != [] {
      var n := |es| - 1;
      NumberedPrefix(g, disk, es, n);
      NumbersAreFresh(g, disk, es[..n]);
      NumberStep(g, After(g, disk, es[..n]), es[n].m, es[n].os);
    }
  }

  lemma NumberStep(g: Setting, s: State, m: Msg, os: Os)
    requires Numbered(g, s, m, os) && forall id | id in s.uploads :: id < s.nextId
    ensures forall id | id in Handle(g, s, m, os).uploads :: id < Handle(g, s, m, os).nextId
  {
    if m.File? {
      match m.file
      case FileUploadReq(path, size, declared) =>
      case FileBlock(id, k, data) =>
      case FileComplete(id) =>
      case FileDelete(path) =>
      case FileMove(from, to) =>
      case FileDownloadReq(path) =>
      case _ =>
    }
  }

  // The upload was in progress from event k on.
  ghost predicate HeldSince(g: Setting, disk: Disk, es: seq<Event>, k: nat, id: u32) {
    forall i | k <= i <= |es| :: id in After(g, disk, es[..i]).uploads
  }

  lemma HeldExtends(g: Setting, disk: Disk, es: seq<Event>, k: nat, id: u32)
    requires es != [] && k < |es|
    ensures HeldSince(g, disk, es, k, id)
       <==> HeldSince(g, disk, es[..|es| - 1], k, id) && id in After(g, disk, es).uploads
  {
    var n := |es| - 1;
    assert es[..|es|] == es;
    forall i | k <= i <= n ensures es[..n][..i] == es[..i] { }
    if HeldSince(g, disk, es, k, id) {
      forall i | k <= i <= n ensures id in After(g, disk, es[..n][..i]).uploads {
        assert id in After(g, disk, es[..i]).uploads;
      }
      assert id in After(g, disk, es[..|es|]).uploads;
    }
    if HeldSince(g, disk, es[..n], k, id) && id in After(g, disk, es).uploads {
      forall i | k <= i <= |es| ensures id in After(g, disk, es[..i]).uploads {
        if i <= n { assert id in After(g, disk, es[..n][..i]).uploads; }
      }
    }
  }

  /** An upload in progress holds exactly the blocks that came with its id since it
      was asked for, in any interleaving with other messages, whatever they name and
      whatever the operating system refuses. */
  lemma {:induction false} UploadHoldsItsBlocks(g: Setting, disk: Disk, es: seq<Event>, id: u32) returns (k: nat)
    requires NumberedRun(g, disk, es) && id in After(g, disk, es).uploads
    ensures AskedAt(g, disk, es, k, id, After(g, disk, es).uploads[id]) && HeldSince(g, disk, es, k, id)
    ensures After(g, disk, es).uploads[id].hashed == BlockData(es[k..], id)
    decreases |es|
  {
    var n := |es| - 1;
    var front, e := es[..n], es[n];
    var s, s' := After(g, disk, front), After(g, disk, es);
    NumberedPrefix(g, disk, es, n);
    if id in s.uploads {
      NumbersAreFresh(g, disk, front);
      k := UploadHoldsItsBlocks(g, disk, front, id);
      UploadStep(g, s, e.m, e.os, id);
      AskedExtends(g, disk, es, n, k, id, s.uploads[id], s'.uploads[id]);
      HeldExtends(g, disk, es, k, id);
      BlockDataOneMore(es, k, id);
    } else {
      k := |es|;
      NewUpload(g, s, e.m, e.os, id);
      assert es[..k - 1] == front && es[k..] == [] && es[..k] == es;
    }
  }

  // An upload that was not there before the message was asked for by it.
  lemma NewUpload(g: Setting, s: State, m: Msg, os: Os, id: u32)
    requires id !in s.uploads && id in Handle(g, s, m, os).uploads
    ensures Opens(g, m, os) && id == s.nextId
    ensures Handle(g, s, m, os).uploads[id]
         == Upload(Dest(g, m, os), Dest(g, m, os) + PART, m.file.size, m.file.sha256, 0, [])
  {
    if m.File? {
      match m.file
      case FileUploadReq(path, size, declared) =>
      case FileBlock(i, k, data) =>
      case FileComplete(i) =>
      case FileDelete(path) =>
      case FileMove(from, to) =>
      case FileDownloadReq(path) =>
      case _ =>
    }
  }

  lemma AskedExtends(g: Setting, disk: Disk, es: seq<Event>, n: nat, k: nat, id: u32, u: Upload, u': Upload)
    requires n <= |es| && AskedAt(g, disk, es[..n], k, id, u)
    requires u'.finalPath == u.finalPath && u'.expected == u.expected && u'.declared == u.declared
    ensures AskedAt(g, disk, es, k, id, u')
  {
    assert es[..n][..k - 1] == es[..k - 1] && es[..n][k - 1] == es[k - 1];
  }

  lemma BlockDataOneMore(es: seq<Event>, k: nat, id: u32)
    requires es != [] && k <= |es| - 1
    ensures BlockData(es[k..], id) == BlockData(es[..|es| - 1][k..], id) + BlockOf(es[|es| - 1].m, id)
  {
    assert es[k..][..|es[k..]| - 1] == es[..|es| - 1][k..];
  }

  // An upload that was there and still is has gained the block with its id, if it is one.
  lemma UploadStep(g: Setting, s: State, m: Msg, os: Os, id: u32)
    requires id in s.uploads && id in Handle(g, s, m, os).uploads && id < s.nextId
    ensures var (u, u') := (s.uploads[id], Handle(g, s, m, os).uploads[id]);
      && u'.finalPath == u.finalPath && u'.expected == u.expected && u'.declared == u.declared
      && u'.hashed == u.hashed + BlockOf(m, id)
  {
    var u := s.uploads[id];
    assert u.hashed + [] == u.hashed;
    if m.File? && !m.file.FileBlock? { OtherUploadsStay(g, s, m.file, os, id); }
  }

  lemma OtherUploadsStay(g: Setting, s: State, f: FileMsg, os: Os, id: u32)
    requires id in s.uploads && id in Handle(g, s, File(f), os).uploads && id != s.nextId && !f.FileBlock?
    ensures Handle(g, s, File(f), os).uploads[id] == s.uploads[id]
  {
    match f
    case FileUploadReq(path, size, declared) =>
    case FileComplete(i) =>
    case FileDelete(path) =>
    case FileMove(from, to) =>
    case FileDownloadReq(path) =>
    case _ =>
  }

  // ----------------------------------------------------------------- clean-up

  // The end of the session: the temporary file of every upload in progress is removed.
  function Discard(disk: Disk, temps: set<string>): Disk { disk - temps }

  // The temporary files whose removal is refused.
  function Refused(s: State, refused: set<string>): set<string> { Temps(s) * refused * s.disk.Keys }

  /** In any state the clean-up leaves the visible files and the temporary files whose
      removal is refused; so nothing is left behind if and only if there is none. */
  lemma NothingIsLeftBehind(s: State, refused: set<string>)
    ensures var end := Discard(s.disk, Temps(s) - refused);
      && end - Temps(s) == Visible(s) && end.Keys == Visible(s).Keys + Refused(s, refused)
      && (end == Visible(s) <==> Refused(s, refused) == {})
  {
    var end := Discard(s.disk, Temps(s) - refused);
    assert end.Keys == Visible(s).Keys + Refused(s, refused);
  }
}
