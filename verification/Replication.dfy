/**
 The screen stream end to end: the streamer's mirror, the messages, and the
 viewer's buffer, over whole runs.
 */
module Replication {
  import opened Util
  import opened Protocol
  import opened FrameDiff
  import opened Viewer
  import opened Streamer
  import Transport

  // The visible bytes of the frame: four per pixel; padding at row ends does not count.
  ghost predicate Shows(buf: Bytes, f: Frame) {
    |buf| == |f.pixels| && forall px, py | 0 <= px < f.width && 0 <= py < f.height :: PixelShown(buf, f, px, py)
  }

  ghost predicate PixelShown(buf: Bytes, f: Frame, px: nat, py: nat) {
    var off := Offset(px, py, f.stride);
    off + 4 <= |buf| && off + 4 <= |f.pixels| && buf[off..off + 4] == f.pixels[off..off + 4]
  }

  lemma {:induction false} RowOfByte(stride: nat, rows: nat, k: nat) returns (y: nat)
    requires k < Size(stride, rows)
    ensures y < rows && RowStart(y, stride) <= k < RowStart(y, stride) + stride
  {
    if RowStart(rows - 1, stride) <= k { y := rows - 1; } else { y := RowOfByte(stride, rows - 1, k); }
  }

  /** Without padding, showing a frame is holding its bytes. */
  lemma TightFrameIsShownWhole(buf: Bytes, f: Frame)
    requires ValidFrame(f) && f.stride == f.width * 4
    ensures Shows(buf, f) <==> buf == f.pixels
  {
    if Shows(buf, f) {
      forall k | 0 <= k < |buf| ensures buf[k] == f.pixels[k] {
        var py := RowOfByte(f.stride, f.height, k);
        var rem := k - RowStart(py, f.stride);
        var px := rem / 4;
        assert PixelShown(buf, f, px, py);
        var off := Offset(px, py, f.stride);
        assert k == off + rem % 4;
        assert buf[off..off + 4][rem % 4] == f.pixels[off..off + 4][rem % 4];
      }
    }
    if buf == f.pixels {
      forall px, py | 0 <= px < f.width && 0 <= py < f.height ensures PixelShown(buf, f, px, py) {
        RowFits(px + 1, py, f);
      }
    }
  }

  // ----------------------------------------------- painting the changed tiles

  // Byte k lies in one of the first n rows of the tile.
  ghost predicate InRows(rc: Rect, stride: nat, n: nat, k: nat) {
    n > 0 && (InRow(rc.x, rc.y, rc.w, stride, n - 1, k) || InRows(rc, stride, n - 1, k))
  }

  lemma {:induction false} InRowsOne(rc: Rect, stride: nat, n: nat, r: nat, k: nat)
    requires r < n && InRow(rc.x, rc.y, rc.w, stride, r, k)
    ensures InRows(rc, stride, n, k)
  {
    if r < n - 1 { InRowsOne(rc, stride, n - 1, r, k); }
  }

  lemma CopyRowAt(buf: Bytes, cur: Bytes, stride: nat, rc: Rect, r: nat, k: nat)
    requires |buf| == |cur| && RowInside(rc, r, stride, |cur|) && k < |cur|
    ensures CopyRow(buf, cur, stride, rc, r)[k] == if InRow(rc.x, rc.y, rc.w, stride, r, k) then cur[k] else buf[k]
  {
    SpliceAt(buf, Offset(rc.x, rc.y + r, stride), RowOf(cur, stride, rc, r), k);
  }

  lemma {:induction false} CopyRowsAt(buf: Bytes, cur: Bytes, stride: nat, rc: Rect, n: nat, k: nat)
    requires |buf| == |cur| && n <= rc.h && TileFits(rc, stride, |cur|) && k < |cur|
    ensures var out := CopyRows(buf, cur, stride, rc, n);
      && (out[k] == buf[k] || out[k] == cur[k])
      && (InRows(rc, stride, n, k) ==> out[k] == cur[k])
  {
    if n > 0 {
      var r := n - 1;
      CopyRowsAt(buf, cur, stride, rc, r, k);
      assert RowInside(rc, r, stride, |cur|);
      var done := CopyRows(buf, cur, stride, rc, r);
      CopyRowAt(done, cur, stride, rc, r, k);
      assert CopyRows(buf, cur, stride, rc, n) == CopyRow(done, cur, stride, rc, r);
    }
  }

  ghost predicate InTile(rc: Rect, stride: nat, k: nat) {
    InRows(rc, stride, rc.h, k)
  }

  // Copying tiles of cur never spoils a byte, and settles every byte of those tiles.
  lemma {:induction false} CopyTilesAt(buf: Bytes, cur: Bytes, stride: nat, rs: seq<Rect>, k: nat)
    requires |buf| == |cur| && Sendable(rs, stride, |cur|) && k < |cur|
    ensures var out := CopyTiles(buf, cur, stride, rs);
      && (out[k] == buf[k] || out[k] == cur[k])
      && ((exists rc | rc in rs :: InTile(rc, stride, k)) ==> out[k] == cur[k])
  {
    if rs != [] {
      var front, rc := rs[..|rs| - 1], rs[|rs| - 1];
      CopyTilesAt(buf, cur, stride, front, k);
      CopyRowsAt(CopyTiles(buf, cur, stride, front), cur, stride, rc, rc.h, k);
      if !InTile(rc, stride, k) {
        assert forall q | q in rs && InTile(q, stride, k) :: q in front;
      }
    }
  }

  /** Painting the emitted tiles of the new frame over the old one gives the new
      frame, on every visible byte. */
  lemma PaintingChangedTiles(prev: Bytes, f: Frame)
    requires ValidFrame(f) && |prev| == |f.pixels|
    ensures var rs := ChangedSpec(prev, f.pixels, f.width, f.height, f.stride, DEFAULT_TILE);
      Sendable(rs, f.stride, |f.pixels|) && Shows(CopyTiles(prev, f.pixels, f.stride, rs), f)
  {
    var rs := ChangedSpec(prev, f.pixels, f.width, f.height, f.stride, DEFAULT_TILE);
    ChangedTilesAreSendable(prev, f);
    var out := CopyTiles(prev, f.pixels, f.stride, rs);
    forall px, py | 0 <= px < f.width && 0 <= py < f.height ensures PixelShown(out, f, px, py) {
      PixelPainted(prev, f, rs, px, py);
    }
  }

  lemma PixelPainted(prev: Bytes, f: Frame, rs: seq<Rect>, px: nat, py: nat)
    requires ValidFrame(f) && |prev| == |f.pixels| && px < f.width && py < f.height
    requires rs == ChangedSpec(prev, f.pixels, f.width, f.height, f.stride, DEFAULT_TILE)
    requires Sendable(rs, f.stride, |f.pixels|)
    ensures PixelShown(CopyTiles(prev, f.pixels, f.stride, rs), f, px, py)
  {
    RowFits(px + 1, py, f);
    var off := Offset(px, py, f.stride);
    VisibleBytes(prev, f, rs, px, py, off);
    VisibleBytes(prev, f, rs, px, py, off + 1);
    VisibleBytes(prev, f, rs, px, py, off + 2);
    VisibleBytes(prev, f, rs, px, py, off + 3);
    SameFour(CopyTiles(prev, f.pixels, f.stride, rs), f.pixels, off);
  }

  lemma SameFour(a: Bytes, b: Bytes, off: nat)
    requires |a| == |b| && off + 4 <= |a|
    requires a[off] == b[off] && a[off + 1] == b[off + 1] && a[off + 2] == b[off + 2] && a[off + 3] == b[off + 3]
    ensures a[off..off + 4] == b[off..off + 4]
  {
  }

  lemma VisibleBytes(prev: Bytes, f: Frame, rs: seq<Rect>, px: nat, py: nat, k: nat)
    requires ValidFrame(f) && |prev| == |f.pixels| && px < f.width && py < f.height && k < |prev|
    requires Offset(px, py, f.stride) <= k < Offset(px, py, f.stride) + 4
    requires rs == ChangedSpec(prev, f.pixels, f.width, f.height, f.stride, DEFAULT_TILE)
    requires Sendable(rs, f.stride, |f.pixels|)
    ensures CopyTiles(prev, f.pixels, f.stride, rs)[k] == f.pixels[k]
  {
    CopyTilesAt(prev, f.pixels, f.stride, rs, k);
    var rc := ByteIsSettled(prev, f, px, py, k);
    ChangedIsExact(prev, f.pixels, f.width, f.height, f.stride, DEFAULT_TILE, rc);
  }

  // The byte lies in some scanned tile; where that tile holds no difference, it is the same already.
  lemma ByteIsSettled(prev: Bytes, f: Frame, px: nat, py: nat, k: nat) returns (rc: Rect)
    requires ValidFrame(f) && |prev| == |f.pixels| && px < f.width && py < f.height && k < |prev|
    requires Offset(px, py, f.stride) <= k < Offset(px, py, f.stride) + 4
    ensures rc in Grid(0, f.width, f.height, DEFAULT_TILE) && InTile(rc, f.stride, k)
    ensures !TileDiffers(prev, f.pixels, f.stride, rc) ==> prev[k] == f.pixels[k]
  {
    var grid := Grid(0, f.width, f.height, DEFAULT_TILE);
    GridCovers(0, f.width, f.height, DEFAULT_TILE, px, py);
    var i :| 0 <= i < |grid| && grid[i].Holds(px, py);
    rc := grid[i];
    var r := py - rc.y;
    assert rc.y + r == py;
    InRowsOne(rc, f.stride, rc.h, r, k);
    if !RowDiffers(prev, f.pixels, f.stride, rc, r) {
      CleanRow(prev, f.pixels, f.stride, rc, r, k);
    }
  }

  lemma CleanRow(prev: Bytes, cur: Bytes, stride: nat, rc: Rect, r: nat, k: nat)
    requires |prev| == |cur| && k < |cur|
    requires !RowDiffers(prev, cur, stride, rc, r) && InRow(rc.x, rc.y, rc.w, stride, r, k)
    ensures prev[k] == cur[k]
  {
    var off := Offset(rc.x, rc.y + r, stride);
    assert cur[off..off + rc.w * 4][k - off] == prev[off..off + rc.w * 4][k - off];
  }

  // --------------------------------------------- the viewer follows the mirror

  // pixels holds the rows of the tile, tightly packed.
  ghost predicate Packs(pixels: Bytes, cur: Bytes, stride: nat, rc: Rect) {
    forall r | 0 <= r < rc.h :: PacksRow(pixels, cur, stride, rc, r)
  }

  ghost predicate PacksRow(pixels: Bytes, cur: Bytes, stride: nat, rc: Rect, r: nat) {
    var src := Size(rc.w * 4, r);
    && RowInside(rc, r, stride, |cur|)
    && src + rc.w * 4 <= |pixels|
    && pixels[src..src + rc.w * 4] == RowOf(cur, stride, rc, r)
  }

  lemma TilePixelsPack(cur: Bytes, stride: nat, rc: Rect)
    requires TileFits(rc, stride, |cur|)
    ensures Packs(TilePixels(cur, stride, rc, rc.h), cur, stride, rc)
  {
    forall r | 0 <= r < rc.h ensures PacksRow(TilePixels(cur, stride, rc, rc.h), cur, stride, rc, r) {
      assert RowInside(rc, r, stride, |cur|);
      TilePixelsRows(cur, stride, rc, rc.h, r);
    }
  }

  lemma BlitRowFollows(buf: Bytes, cur: Bytes, stride: nat, rc: Rect, pixels: Bytes, r: nat)
    requires |buf| == |cur| && PacksRow(pixels, cur, stride, rc, r)
    ensures BlitRow(buf, stride, rc.x, rc.y, rc.w, pixels, r) == CopyRow(buf, cur, stride, rc, r)
  {
  }

  lemma OneMoreRow(buf: Bytes, cur: Bytes, stride: nat, rc: Rect, r: nat)
    requires |buf| == |cur| && r < rc.h && TileFits(rc, stride, |cur|) && RowInside(rc, r, stride, |cur|)
    ensures CopyRows(buf, cur, stride, rc, r + 1) == CopyRow(CopyRows(buf, cur, stride, rc, r), cur, stride, rc, r)
  {
  }

  lemma {:induction false} BlitFollows(buf: Bytes, cur: Bytes, stride: nat, rc: Rect, pixels: Bytes, n: nat)
    requires |buf| == |cur| && n <= rc.h && TileFits(rc, stride, |cur|) && Packs(pixels, cur, stride, rc)
    ensures BlitRows(buf, stride, rc.x, rc.y, rc.w, pixels, n) == CopyRows(buf, cur, stride, rc, n)
  {
    if n > 0 {
      var r := n - 1;
      BlitFollows(buf, cur, stride, rc, pixels, r);
      var done := CopyRows(buf, cur, stride, rc, r);
      assert PacksRow(pixels, cur, stride, rc, r) && RowInside(rc, r, stride, |cur|);
      BlitRowFollows(done, cur, stride, rc, pixels, r);
      OneMoreRow(buf, cur, stride, rc, r);
    }
  }

  lemma {:induction false} TilesFollow(v: View, cur: Bytes, seqNo: u32, rs: seq<Rect>)
    requires |v.pending| == |cur| && v.pstride > 0 && Sendable(rs, v.pstride, |cur|)
    ensures AllAccepted(RectMsgs(cur, v.pstride, seqNo, rs))
    ensures ApplyAll(v, RectMsgs(cur, v.pstride, seqNo, rs))
         == v.(pending := CopyTiles(v.pending, cur, v.pstride, rs))
  {
    if rs != [] {
      var front, rc := rs[..|rs| - 1], rs[|rs| - 1];
      TilesFollow(v, cur, seqNo, front);
      var pixels := TilePixels(cur, v.pstride, rc, rc.h);
      TilePixelsPack(cur, v.pstride, rc);
      BlitFollows(CopyTiles(v.pending, cur, v.pstride, front), cur, v.pstride, rc, pixels, rc.h);
      ApplyAllJoin(v, RectMsgs(cur, v.pstride, seqNo, front), [RectMsg(cur, v.pstride, seqNo, rc)]);
      ApplyOne(ApplyAll(v, RectMsgs(cur, v.pstride, seqNo, front)), RectMsg(cur, v.pstride, seqNo, rc));
    }
  }

  lemma ApplyOne(v: View, m: VideoMsg)
    requires Accepted(m)
    ensures AllAccepted([m]) && ApplyAll(v, [m]) == Apply(v, m)
  {
    assert [m][..0] == [];
  }

  lemma {:induction false} ChunksFollow(v: View, pixels: Bytes, seqNo: u32, off: nat)
    requires |v.pending| == |pixels| < 0x1_0000_0000
    requires v.pending[..Min(off, |pixels|)] == pixels[..Min(off, |pixels|)]
    ensures AllAccepted(Chunks(pixels, seqNo, off))
    ensures ApplyAll(v, Chunks(pixels, seqNo, off)) == v.(pending := pixels)
    decreases |pixels| - off
  {
    if off < |pixels| {
      var n := Min(VIDEO_CHUNK_SIZE, |pixels| - off);
      var chunk := FrameData(seqNo, off, pixels[off..off + n]);
      var v' := v.(pending := Splice(v.pending, off, pixels[off..off + n]));
      assert v'.pending[..off + n] == pixels[..off] + pixels[off..off + n] == pixels[..off + n];
      ChunksFollow(v', pixels, seqNo, off + VIDEO_CHUNK_SIZE);
      ApplyOne(v, chunk);
      ApplyAllJoin(v, [chunk], Chunks(pixels, seqNo, off + VIDEO_CHUNK_SIZE));
    }
  }

  lemma KeyframeFollows(v: View, f: Frame, seqNo: u32)
    requires ValidFrame(f)
    ensures AllAccepted(KeyframeMsgs(f, seqNo))
    ensures ApplyAll(v, KeyframeMsgs(f, seqNo))
         == View(f.pixels, f.width, f.height, f.stride, f.pixels, f.width, f.height, f.stride)
  {
    var info, end := FrameInfo(seqNo, f.width, f.height, f.stride, f.format, true), FrameEnd(seqNo);
    var chunks := Chunks(f.pixels, seqNo, 0);
    ApplyOne(v, info);
    var v1 := Apply(v, info);
    ChunksFollow(v1, f.pixels, seqNo, 0);
    ApplyAllJoin(v, [info], chunks);
    ApplyOne(v1.(pending := f.pixels), end);
    ApplyAllJoin(v, [info] + chunks, [end]);
  }

  /** The two-party invariant: the buffer, and what is on show, is the mirror. */
  ghost predicate InSync(s: Mirror, v: View) {
    v == View(s.prev, s.w, s.h, s.stride, s.prev, s.w, s.h, s.stride)
  }

  ghost predicate OnScreen(v: View, f: Frame) {
    Shows(v.front, f) && v.w == f.width && v.h == f.height && v.stride == f.stride
  }

  lemma StepFollows(s: Mirror, v: View, c: Capture)
    requires InSync(s, v) && ValidCapture(c) && !c.CaptureError?
    ensures var (s', ms, step) := StreamSpec(s, c);
      && AllAccepted(ms)
      && InSync(s', ApplyAll(v, ms))
      && (c.Fresh? ==> OnScreen(ApplyAll(v, ms), c.frame))
      && (!c.Fresh? ==> ApplyAll(v, ms) == v)
  {
    if c.Fresh? {
      var f := c.frame;
      if NeedsKeyframe(s, f) {
        KeyframeFollows(v, f, NextSeq(s.seqNo));
        forall px, py | 0 <= px < f.width && 0 <= py < f.height ensures PixelShown(f.pixels, f, px, py) {
          RowFits(px + 1, py, f);
        }
      } else {
        var rs := ChangedSpec(s.prev, f.pixels, f.width, f.height, f.stride, DEFAULT_TILE);
        PaintingChangedTiles(s.prev, f);
        ChangedTilesAreSendable(s.prev, f);
        DeltaFollows(s, v, f, rs);
      }
    }
  }

  lemma DeltaFollows(s: Mirror, v: View, f: Frame, rs: seq<Rect>)
    requires InSync(s, v) && |s.prev| == |f.pixels|
    requires s.w == f.width && s.h == f.height && s.stride == f.stride
    requires Sendable(rs, f.stride, |f.pixels|) && (rs != [] ==> f.stride > 0)
    requires Shows(CopyTiles(s.prev, f.pixels, f.stride, rs), f)
    ensures var (s', ms, step) := DeltaSpec(s, f, rs);
      && AllAccepted(ms)
      && InSync(s', ApplyAll(v, ms))
      && OnScreen(ApplyAll(v, ms), f)
  {
    if rs != [] {
      TilesThenEnd(v, f.pixels, NextSeq(s.seqNo), rs);
    }
  }

  lemma TilesThenEnd(v: View, cur: Bytes, seqNo: u32, rs: seq<Rect>)
    requires |v.pending| == |cur| && v.pstride > 0 && Sendable(rs, v.pstride, |cur|)
    ensures AllAccepted(RectMsgs(cur, v.pstride, seqNo, rs) + [FrameEnd(seqNo)])
    ensures ApplyAll(v, RectMsgs(cur, v.pstride, seqNo, rs) + [FrameEnd(seqNo)])
         == Apply(v.(pending := CopyTiles(v.pending, cur, v.pstride, rs)), FrameEnd(seqNo))
  {
    TilesFollow(v, cur, seqNo, rs);
    ApplyOne(v.(pending := CopyTiles(v.pending, cur, v.pstride, rs)), FrameEnd(seqNo));
    ApplyAllJoin(v, RectMsgs(cur, v.pstride, seqNo, rs), [FrameEnd(seqNo)]);
  }

  // -------------------------------------------------------------- whole runs

  ghost predicate ValidRun(cs: seq<Capture>) {
    forall i | 0 <= i < |cs| :: ValidCapture(cs[i]) && !cs[i].CaptureError?
  }

  // Everything the server sends over a run of captures, and its state afterwards.
  ghost function Stream(cs: seq<Capture>): (r: (Mirror, seq<VideoMsg>))
    requires ValidRun(cs)
  {
    if cs == [] then (FRESH_MIRROR, []) else
      var (s, sent) := Stream(cs[..|cs| - 1]);
      var (s', ms, _) := StreamSpec(s, cs[|cs| - 1]);
      (s', sent + ms)
  }

  ghost function LastFrame(cs: seq<Capture>): Option<Frame> {
    if cs == [] then None
    else if cs[|cs| - 1].Fresh? then Some(cs[|cs| - 1].frame)
    else LastFrame(cs[..|cs| - 1])
  }

  ghost predicate Presents(v: View, shown: Option<Frame>) {
    match shown
    case None => v == EMPTY_VIEW
    case Some(f) => OnScreen(v, f)
  }

  /** For every sequence of fresh frames of any geometry, timeouts and losses,
      once its messages have been delivered in order the viewer's buffer is the
      server's mirror, and the screen shows the last captured frame. */
  lemma {:induction false} ViewerShowsLastFrame(cs: seq<Capture>)
    requires ValidRun(cs)
    ensures var (s, sent) := Stream(cs);
      AllAccepted(sent) && InSync(s, ApplyAll(EMPTY_VIEW, sent)) && Presents(ApplyAll(EMPTY_VIEW, sent), LastFrame(cs))
  {
    if cs != [] {
      var front, c := cs[..|cs| - 1], cs[|cs| - 1];
      ViewerShowsLastFrame(front);
      var (s, sent) := Stream(front);
      StepFollows(s, ApplyAll(EMPTY_VIEW, sent), c);
      ApplyAllJoin(EMPTY_VIEW, sent, StreamSpec(s, c).1);
    }
  }

  /** With rows packed tightly, as the capture packs them, what is on show is the last
      captured frame byte for byte, sent or skipped as unchanged. */
  lemma FrontIsTheCapturedFrame(cs: seq<Capture>)
    requires ValidRun(cs) && LastFrame(cs).Some? && LastFrame(cs).value.stride == LastFrame(cs).value.width * 4
    ensures var (f, sent) := (LastFrame(cs).value, Stream(cs).1);
      AllAccepted(sent) &&
      var v := ApplyAll(EMPTY_VIEW, sent);
      v.front == f.pixels && v.pending == f.pixels && v.w == f.width && v.h == f.height && v.stride == f.stride
  {
    ViewerShowsLastFrame(cs);
    LastFrameIsValid(cs);
    TightFrameIsShownWhole(ApplyAll(EMPTY_VIEW, Stream(cs).1).front, LastFrame(cs).value);
  }

  lemma {:induction false} LastFrameIsValid(cs: seq<Capture>)
    requires ValidRun(cs) && LastFrame(cs).Some?
    ensures ValidFrame(LastFrame(cs).value)
  {
    assert ValidCapture(cs[|cs| - 1]);
    if !cs[|cs| - 1].Fresh? { LastFrameIsValid(cs[..|cs| - 1]); }
  }

  // A frame is presented by its last message and by no earlier one.
  lemma OneEndPerStep(s: Mirror, c: Capture)
    requires ValidCapture(c)
    ensures var ms := StreamSpec(s, c).1;
      forall i | 0 <= i < |ms| :: ms[i].FrameEnd? <==> i == |ms| - 1
  {
    if c.Fresh? {
      var f, seqNo := c.frame, NextSeq(s.seqNo);
      if NeedsKeyframe(s, f) {
        NoEndInChunks(f.pixels, seqNo, 0);
      } else {
        var rs := ChangedSpec(s.prev, f.pixels, f.width, f.height, f.stride, DEFAULT_TILE);
        ChangedTilesAreSendable(s.prev, f);
        NoEndInTiles(f.pixels, f.stride, seqNo, rs);
      }
    }
  }

  lemma {:induction false} NoEndInChunks(pixels: Bytes, seqNo: u32, off: nat)
    requires |pixels| < 0x1_0000_0000
    ensures forall i | 0 <= i < |Chunks(pixels, seqNo, off)| :: Chunks(pixels, seqNo, off)[i].FrameData?
    decreases |pixels| - off
  {
    if off < |pixels| { NoEndInChunks(pixels, seqNo, off + VIDEO_CHUNK_SIZE); }
  }

  lemma {:induction false} NoEndInTiles(cur: Bytes, stride: nat, seqNo: u32, rs: seq<Rect>)
    requires Sendable(rs, stride, |cur|)
    ensures forall i | 0 <= i < |rs| :: RectMsgs(cur, stride, seqNo, rs)[i].FrameRect?
  {
    if rs != [] { NoEndInTiles(cur, stride, seqNo, rs[..|rs| - 1]); }
  }

  lemma {:induction false} FrontHolds(v: View, ms: seq<VideoMsg>)
    requires AllAccepted(ms) && forall i | 0 <= i < |ms| :: !ms[i].FrameEnd?
    ensures var v' := ApplyAll(v, ms); v'.front == v.front && v'.w == v.w && v'.h == v.h && v'.stride == v.stride
  {
    if ms != [] { FrontHolds(v, ms[..|ms| - 1]); }
  }

  /** No torn frames: part-way through a step, after any n of its messages (a link
      failing there included), the screen still shows the frame before it, whole. */
  lemma NoTornFrame(cs: seq<Capture>, c: Capture, n: nat)
    requires ValidRun(cs) && ValidCapture(c)
    requires n < |StreamSpec(Stream(cs).0, c).1|
    ensures var (s, sent) := Stream(cs);
      var seen := sent + StreamSpec(s, c).1[..n];
      AllAccepted(seen) &&
      match LastFrame(cs)
      case Some(f) => OnScreen(ApplyAll(EMPTY_VIEW, seen), f)
      case None => ApplyAll(EMPTY_VIEW, seen).front == []
  {
    ViewerShowsLastFrame(cs);
    var (s, sent) := Stream(cs);
    var ms := StreamSpec(s, c).1;
    StepFollows(s, ApplyAll(EMPTY_VIEW, sent), c);
    OneEndPerStep(s, c);
    ApplyAllJoin(EMPTY_VIEW, sent, ms[..n]);
    FrontHolds(ApplyAll(EMPTY_VIEW, sent), ms[..n]);
  }

  // ------------------------------------------------------------ over the wire

  function AsMessages(ms: seq<VideoMsg>): seq<Msg> {
    if ms == [] then [] else AsMessages(ms[..|ms| - 1]) + [Video(ms[|ms| - 1])]
  }

  lemma {:induction false} WatchedIsAll(ms: seq<VideoMsg>, more: seq<Msg>)
    ensures Watched(AsMessages(ms) + more) == ms + Watched(more)
  {
    if ms == [] {
      assert [] + more == more;
    } else {
      var front, m := ms[..|ms| - 1], Video(ms[|ms| - 1]);
      WatchedIsAll(front, [m] + more);
      assert AsMessages(ms) + more == AsMessages(front) + ([m] + more);
      assert ([m] + more)[1..] == more;
      assert front + ([ms[|ms| - 1]] + Watched(more)) == ms + Watched(more);
    }
  }

  // Payloads well below the message cap: a chunk, or one tile, and its header.
  ghost predicate Small(m: VideoMsg) {
    (m.FrameData? ==> |m.data| <= VIDEO_CHUNK_SIZE) && (m.FrameRect? ==> |m.pixels| <= 65536)
  }

  lemma SmallMessageFits(m: VideoMsg)
    requires Small(m)
    ensures Transport.Sendable(Transport.Pack(Video(m)))
  {
    var fs := VideoFields(m);
    FieldsSize(fs, VIDEO_CHUNK_SIZE);
    RowStartIsProduct(|fs|, VIDEO_CHUNK_SIZE + 4);
    assert |fs| <= 6;
  }

  lemma {:induction false} FieldsSize(fs: seq<Field>, bound: nat)
    requires bound >= 32 && forall i | 0 <= i < |fs| :: fs[i].FBlob? ==> |fs[i].blob| <= bound
    ensures |EncodeFields(fs)| <= RowStart(|fs|, bound + 4)
  {
    if fs != [] {
      Pow256Values();
      match fs[0] {
        case F8(v) => ValueOfBigEndian(1, v);
        case F16(v) => ValueOfBigEndian(2, v);
        case F32(v) => ValueOfBigEndian(4, v);
        case F64(v) => ValueOfBigEndian(8, v);
        case FBlob(b) => ValueOfBigEndian(4, |b|);
        case FHash(_) =>
      }
      FieldsSize(fs[1..], bound);
    }
  }

  lemma StepIsSmall(s: Mirror, c: Capture)
    requires ValidCapture(c)
    ensures forall i | 0 <= i < |StreamSpec(s, c).1| :: Small(StreamSpec(s, c).1[i])
  {
    if c.Fresh? {
      var f, seqNo := c.frame, NextSeq(s.seqNo);
      if NeedsKeyframe(s, f) {
        ChunksAreSmall(f.pixels, seqNo, 0);
      } else {
        var rs := ChangedSpec(s.prev, f.pixels, f.width, f.height, f.stride, DEFAULT_TILE);
        ChangedTilesAreSendable(s.prev, f);
        TilesAreSmall(f.pixels, f.stride, seqNo, rs);
      }
    }
  }

  lemma {:induction false} ChunksAreSmall(pixels: Bytes, seqNo: u32, off: nat)
    requires |pixels| < 0x1_0000_0000
    ensures forall i | 0 <= i < |Chunks(pixels, seqNo, off)| :: Small(Chunks(pixels, seqNo, off)[i])
    decreases |pixels| - off
  {
    if off < |pixels| { ChunksAreSmall(pixels, seqNo, off + VIDEO_CHUNK_SIZE); }
  }

  lemma {:induction false} TilesAreSmall(cur: Bytes, stride: nat, seqNo: u32, rs: seq<Rect>)
    requires Sendable(rs, stride, |cur|)
    ensures forall i | 0 <= i < |rs| :: Small(RectMsgs(cur, stride, seqNo, rs)[i])
  {
    if rs != [] { TilesAreSmall(cur, stride, seqNo, rs[..|rs| - 1]); }
  }

  lemma {:induction false} StreamIsSmall(cs: seq<Capture>)
    requires ValidRun(cs)
    ensures forall i | 0 <= i < |Stream(cs).1| :: Small(Stream(cs).1[i])
  {
    if cs != [] {
      StreamIsSmall(cs[..|cs| - 1]);
      StepIsSmall(Stream(cs[..|cs| - 1]).0, cs[|cs| - 1]);
    }
  }

  lemma {:induction false} SmallMessagesFit(ms: seq<VideoMsg>)
    requires forall i | 0 <= i < |ms| :: Small(ms[i])
    ensures Transport.AllSendable(Transport.PackAll(AsMessages(ms)))
  {
    if ms != [] {
      SmallMessagesFit(ms[..|ms| - 1]);
      SmallMessageFits(ms[|ms| - 1]);
      PackAllAppend(AsMessages(ms[..|ms| - 1]), Video(ms[|ms| - 1]));
    }
  }

  lemma {:induction false} PackAllAppend(ms: seq<Msg>, m: Msg)
    ensures Transport.PackAll(ms + [m]) == Transport.PackAll(ms) + [Transport.Pack(m)]
  {
    if ms == [] {
      assert (ms + [m])[1..] == [];
    } else {
      assert (ms + [m])[1..] == ms[1..] + [m];
      PackAllAppend(ms[1..], m);
    }
  }

  /** Capture to screen through the byte stream: encode and frame everything a run
      sends, cut the stream inside the next frame wherever it breaks, unframe and
      decode at the other end, and the viewer shows the last captured frame. */
  lemma ScreenAcrossTheWire(cs: seq<Capture>, cut: Transport.Message, n: nat)
    requires ValidRun(cs)
    requires Transport.Sendable(cut) && n < |Transport.FrameOf(cut)|
    ensures var ms := AsMessages(Stream(cs).1);
      var wire := Transport.FramesOf(Transport.PackAll(ms)) + Transport.FrameOf(cut)[..n];
      var watched := Watched(Transport.UnpackAll(Transport.UnframeAll(wire)));
      AllAccepted(watched) && Presents(ApplyAll(EMPTY_VIEW, watched), LastFrame(cs))
  {
    var sent := Stream(cs).1;
    StreamIsSmall(cs);
    SmallMessagesFit(sent);
    Transport.WireDelivers(AsMessages(sent), cut, n);
    WatchedIsAll(sent, []);
    assert AsMessages(sent) + [] == AsMessages(sent) && sent + [] == sent;
    ViewerShowsLastFrame(cs);
  }

  // --------------------------------------------------------------- bandwidth

  function PixelBytes(ms: seq<VideoMsg>): nat {
    if ms == [] then 0 else
      PixelBytes(ms[..|ms| - 1]) + if ms[|ms| - 1].FrameRect? then |ms[|ms| - 1].pixels| else 0
  }

  lemma OneTileBytes(cur: Bytes, stride: nat, rc: Rect)
    requires TileFits(rc, stride, |cur|)
    ensures |TilePixels(cur, stride, rc, rc.h)| == 4 * rc.Area()
  {
    TilePixelsRows(cur, stride, rc, rc.h, 0);
    RowStartIsProduct(rc.h, rc.w * 4);
    assert rc.h * (rc.w * 4) == 4 * (rc.w * rc.h);
  }

  lemma {:induction false} TileBytes(cur: Bytes, stride: nat, seqNo: u32, rs: seq<Rect>)
    requires Sendable(rs, stride, |cur|)
    ensures PixelBytes(RectMsgs(cur, stride, seqNo, rs)) == 4 * TotalArea(rs)
  {
    if rs != [] {
      var front, rc := rs[..|rs| - 1], rs[|rs| - 1];
      TileBytes(cur, stride, seqNo, front);
      assert rs == front + [rc];
      TotalAreaJoin(front, [rc]);
      OneTileBytes(cur, stride, rc);
      var ms, m := RectMsgs(cur, stride, seqNo, front), RectMsg(cur, stride, seqNo, rc);
      assert (ms + [m])[..|ms|] == ms;
    }
  }

  /** The pixels of a delta never take more than four bytes per screen pixel. */
  lemma DeltaIsNeverLargerThanTheScreen(s: Mirror, f: Frame)
    requires ValidFrame(f) && !NeedsKeyframe(s, f)
    ensures PixelBytes(StreamSpec(s, Fresh(f)).1) <= 4 * (f.width * f.height)
  {
    var rs := ChangedSpec(s.prev, f.pixels, f.width, f.height, f.stride, DEFAULT_TILE);
    ChangedTilesAreSendable(s.prev, f);
    ChangedIsExact(s.prev, f.pixels, f.width, f.height, f.stride, DEFAULT_TILE, Rect(0, 0, 0, 0));
    var seqNo := NextSeq(s.seqNo);
    TileBytes(f.pixels, f.stride, seqNo, rs);
    var tiles := RectMsgs(f.pixels, f.stride, seqNo, rs);
    assert (tiles + [FrameEnd(seqNo)])[..|tiles|] == tiles;
  }
}
