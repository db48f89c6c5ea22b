/**
 What the streamer answers to each capture, when it starts anew, when it is silent, and how
 it numbers its frames (video/VideoStreamer.cpp), told on the run of captures alone.
 */
module Recovery {
  import opened Util
  import opened Protocol
  import opened FrameDiff
  import opened Viewer
  import opened Streamer
  import opened Replication

  // No frame has come since the capture was last lost, or at all.
  predicate Desynced(cs: seq<Capture>) {
    cs == [] || cs[|cs| - 1].Lost? || (!cs[|cs| - 1].Fresh? && Desynced(cs[..|cs| - 1]))
  }

  // What the streamer makes of the next capture after a run.
  ghost function NextStep(cs: seq<Capture>, c: Capture): (Mirror, seq<VideoMsg>, Step)
    requires ValidRun(cs) && ValidCapture(c)
  {
    StreamSpec(Stream(cs).0, c)
  }

  /** In any state: a lost capture is to be set up again, an error is a failure, and `Sent` is
      answered exactly when something was sent, which only a frame can bring about. */
  lemma StepAnswers(s: Mirror, c: Capture)
    requires ValidCapture(c)
    ensures var (_, ms, step) := StreamSpec(s, c);
      && (step == Reinitialize <==> c.Lost?) && (step == Failed <==> c.CaptureError?)
      && (step == Sent <==> ms != []) && (ms != [] ==> c.Fresh?)
  {
  }

  lemma {:induction false} KeyedUnlessDesynced(cs: seq<Capture>)
    requires ValidRun(cs)
    ensures Stream(cs).0.keyed <==> !Desynced(cs)
    decreases |cs|
  {
    if cs != [] { KeyedUnlessDesynced(cs[..|cs| - 1]); }
  }

  /** Recovery: after a loss, and at the start, the messages of the next frame bring any viewer
      whatever, in sync or not, to show that frame. */
  lemma NextFrameRecovers(cs: seq<Capture>, f: Frame, v: View)
    requires ValidRun(cs) && ValidFrame(f) && Desynced(cs)
    ensures var ms := NextStep(cs, Fresh(f)).1;
      AllAccepted(ms) && OnScreen(ApplyAll(v, ms), f) && ApplyAll(v, ms).front == f.pixels
  {
    var s := Stream(cs).0;
    KeyedUnlessDesynced(cs);
    KeyframeFollows(v, f, NextSeq(s.seqNo));
    forall px, py | 0 <= px < f.width && 0 <= py < f.height ensures PixelShown(f.pixels, f, px, py) {
      RowFits(px + 1, py, f);
    }
  }

  predicate SameGeometry(a: Frame, b: Frame) { a.width == b.width && a.height == b.height && a.stride == b.stride }

  lemma {:induction false} SyncedHasFrame(cs: seq<Capture>)
    requires !Desynced(cs) && ValidRun(cs)
    ensures LastFrame(cs).Some?
    decreases |cs|
  {
    if !cs[|cs| - 1].Fresh? { SyncedHasFrame(cs[..|cs| - 1]); }
  }

  // The mirror has the geometry, and shows, the last frame.
  lemma MirrorShows(cs: seq<Capture>)
    requires ValidRun(cs) && LastFrame(cs).Some?
    ensures var (s, f) := (Stream(cs).0, LastFrame(cs).value);
      ValidFrame(f) && s.w == f.width && s.h == f.height && s.stride == f.stride && Shows(s.prev, f)
  {
    ViewerShowsLastFrame(cs);
    LastFrameIsValid(cs);
  }

  // The next frame is sent whole: nothing has been since the last loss, or the geometry is new.
  ghost predicate Anew(cs: seq<Capture>, f: Frame)
    requires ValidRun(cs)
  {
    Desynced(cs) || (SyncedHasFrame(cs); !SameGeometry(LastFrame(cs).value, f))
  }

  lemma AnewIsKeyframe(cs: seq<Capture>, f: Frame)
    requires ValidRun(cs) && ValidFrame(f)
    ensures NeedsKeyframe(Stream(cs).0, f) <==> Anew(cs, f)
  {
    KeyedUnlessDesynced(cs);
    if !Desynced(cs) {
      SyncedHasFrame(cs);
      MirrorShows(cs);
    }
  }

  /** A frame is sent whole, its geometry announced, exactly when it is sent anew; at any other
      time the announced geometry stands and only tiles are sent. */
  lemma KeyframeExactlyWhen(cs: seq<Capture>, f: Frame)
    requires ValidRun(cs) && ValidFrame(f)
    ensures var ms := NextStep(cs, Fresh(f)).1;
      if Anew(cs, f)
      then ms != [] && ms[0].FrameInfo? && ms[0].width == f.width && ms[0].height == f.height
           && ms[0].stride == f.stride && ms[0].format == f.format && ms[0].keyframe
      else forall m | m in ms :: m.FrameRect? || m.FrameEnd?
  {
    var s := Stream(cs).0;
    AnewIsKeyframe(cs, f);
    if !NeedsKeyframe(s, f) {
      var rs := ChangedSpec(s.prev, f.pixels, f.width, f.height, f.stride, DEFAULT_TILE);
      ChangedTilesAreSendable(s.prev, f);
      NoEndInTiles(f.pixels, f.stride, NextSeq(s.seqNo), rs);
    }
  }

  // ------------------------------------------------------------------ silence

  lemma DifferenceShows(prev: Bytes, f: Frame, rc: Rect)
    requires ValidFrame(f) && |prev| == |f.pixels| && rc in Grid(0, f.width, f.height, DEFAULT_TILE)
    requires TileDiffers(prev, f.pixels, f.stride, rc)
    ensures !Shows(prev, f)
  {
    var grid := Grid(0, f.width, f.height, DEFAULT_TILE);
    GridWithin(0, f.width, f.height, DEFAULT_TILE);
    GridTileIsSendable(f, rc);
    var j :| 0 <= j < |grid| && grid[j] == rc;
    assert Within(grid[j], 0, 0, f.width, f.height);
    var r :| 0 <= r < rc.h && RowDiffers(prev, f.pixels, f.stride, rc, r);
    assert RowInside(rc, r, f.stride, |f.pixels|);
    RowDifferenceShows(prev, f, rc, r);
  }

  lemma RowDifferenceShows(prev: Bytes, f: Frame, rc: Rect, r: nat)
    requires ValidFrame(f) && |prev| == |f.pixels| && r < rc.h && RowInside(rc, r, f.stride, |f.pixels|)
    requires rc.x + rc.w <= f.width && rc.y + rc.h <= f.height && RowDiffers(prev, f.pixels, f.stride, rc, r)
    ensures !Shows(prev, f)
  {
    var off := Offset(rc.x, rc.y + r, f.stride);
    var a, b := f.pixels[off..off + rc.w * 4], prev[off..off + rc.w * 4];
    var k :| 0 <= k < rc.w * 4 && a[k] != b[k];
    ByteDifferenceShows(prev, f, rc.x, rc.y + r, rc.w, k);
  }

  // A byte of a row belongs to a pixel, which then differs.
  lemma ByteDifferenceShows(prev: Bytes, f: Frame, x: nat, y: nat, w: nat, k: nat)
    requires ValidFrame(f) && |prev| == |f.pixels| && x + w <= f.width && y < f.height && k < w * 4
    requires var off := Offset(x, y, f.stride); off + w * 4 <= |prev| && f.pixels[off + k] != prev[off + k]
    ensures !Shows(prev, f)
  {
    var q, i := k / 4, k % 4;
    FourDiffer(f.pixels, prev, Offset(x, y, f.stride) + q * 4, i);
    assert Offset(x + q, y, f.stride) == Offset(x, y, f.stride) + q * 4;
    assert !PixelShown(prev, f, x + q, y);
  }

  lemma FourDiffer(a: Bytes, b: Bytes, off: nat, i: nat)
    requires |a| == |b| && off + 4 <= |a| && i < 4
    ensures a[off + i] != b[off + i] ==> a[off..off + 4] != b[off..off + 4]
  {
    assert a[off..off + 4][i] == a[off + i] && b[off..off + 4][i] == b[off + i];
  }

  lemma NoTilesExactlyWhenShown(prev: Bytes, f: Frame)
    requires ValidFrame(f) && |prev| == |f.pixels|
    ensures ChangedSpec(prev, f.pixels, f.width, f.height, f.stride, DEFAULT_TILE) == [] <==> Shows(prev, f)
  {
    var rs := ChangedSpec(prev, f.pixels, f.width, f.height, f.stride, DEFAULT_TILE);
    PaintingChangedTiles(prev, f);
    if rs != [] {
      ChangedIsExact(prev, f.pixels, f.width, f.height, f.stride, DEFAULT_TILE, rs[0]);
      DifferenceShows(prev, f, rs[0]);
    }
  }

  lemma ShowsAlike(a: Bytes, f0: Frame, f: Frame)
    requires ValidFrame(f0) && ValidFrame(f) && SameGeometry(f0, f) && Shows(a, f0)
    ensures Shows(a, f) <==> Shows(f0.pixels, f)
  {
    forall px, py | 0 <= px < f.width && 0 <= py < f.height
      ensures PixelShown(a, f, px, py) <==> PixelShown(f0.pixels, f, px, py)
    {
      assert PixelShown(a, f0, px, py);
    }
  }

  /** A frame of the same geometry is answered with nothing, and skipped, exactly when every
      visible byte of it is as in the frame before. */
  lemma SilentExactlyWhenUnchanged(cs: seq<Capture>, f: Frame)
    requires ValidRun(cs) && ValidFrame(f) && !Anew(cs, f)
    ensures LastFrame(cs).Some?
    ensures var (_, ms, step) := NextStep(cs, Fresh(f));
      && (ms == [] <==> Shows(LastFrame(cs).value.pixels, f))
      && (step == Skipped <==> Shows(LastFrame(cs).value.pixels, f))
  {
    SyncedHasFrame(cs);
    AnewIsKeyframe(cs, f);
    MirrorShows(cs);
    NoTilesExactlyWhenShown(Stream(cs).0.prev, f);
    ShowsAlike(Stream(cs).0.prev, LastFrame(cs).value, f);
  }

  // ---------------------------------------------------------------- numbering

  // How many of these captures were answered with a frame.
  ghost function FramesSent(cs: seq<Capture>): nat
    requires ValidRun(cs)
  {
    if cs == [] then 0 else
      var front := cs[..|cs| - 1];
      FramesSent(front) + if NextStep(front, cs[|cs| - 1]).2.Sent? then 1 else 0
  }

  lemma {:induction false} ChunksAreNumbered(pixels: Bytes, seqNo: u32, off: nat)
    requires |pixels| < 0x1_0000_0000
    ensures forall m | m in Chunks(pixels, seqNo, off) :: m.sequence == seqNo
    decreases |pixels| - off
  {
    if off < |pixels| { ChunksAreNumbered(pixels, seqNo, off + VIDEO_CHUNK_SIZE); }
  }

  lemma NextChunk(pixels: Bytes, seqNo: u32, off: nat)
    requires off < |pixels| < 0x1_0000_0000
    ensures var rest := pixels[off..];
      Chunks(pixels, seqNo, off)
        == [FrameData(seqNo, off, if |rest| <= 262144 then rest else rest[..262144])]
           + Chunks(pixels, seqNo, off + 262144)
  {
    var rest := pixels[off..];
    if |rest| <= 262144 {
      assert pixels[off..off + |rest|] == rest;
    } else {
      assert pixels[off..off + 262144] == rest[..262144];
    }
  }

  /** A frame sent whole goes in chunks of 262144 bytes and what is left, each with the place it
      starts at. */
  lemma {:induction false} ChunksInOrder(pixels: Bytes, seqNo: u32, off: nat, i: nat)
    requires |pixels| < 0x1_0000_0000
    ensures var (at, cs) := (off + i * 262144, Chunks(pixels, seqNo, off));
      && (i < |cs| <==> at < |pixels|)
      && (at < |pixels| ==>
            var rest := pixels[at..];
            cs[i] == FrameData(seqNo, at, if |rest| <= 262144 then rest else rest[..262144]))
    decreases i
  {
    if off < |pixels| {
      NextChunk(pixels, seqNo, off);
      if i > 0 { ChunksInOrder(pixels, seqNo, off + 262144, i - 1); }
    }
  }

  lemma {:induction false} TilesAreNumbered(cur: Bytes, stride: nat, seqNo: u32, rs: seq<Rect>)
    requires Sendable(rs, stride, |cur|)
    ensures forall m | m in RectMsgs(cur, stride, seqNo, rs) :: m.sequence == seqNo
  {
    if rs != [] { TilesAreNumbered(cur, stride, seqNo, rs[..|rs| - 1]); }
  }

  lemma StepIsNumbered(s: Mirror, c: Capture)
    requires ValidCapture(c)
    ensures var (s', ms, step) := StreamSpec(s, c);
      && (forall m | m in ms :: m.sequence == NextSeq(s.seqNo))
      && s'.seqNo == if step == Sent then NextSeq(s.seqNo) else s.seqNo
  {
    if c.Fresh? {
      var f, seqNo := c.frame, NextSeq(s.seqNo);
      if NeedsKeyframe(s, f) {
        ChunksAreNumbered(f.pixels, seqNo, 0);
      } else {
        var rs := ChangedSpec(s.prev, f.pixels, f.width, f.height, f.stride, DEFAULT_TILE);
        ChangedTilesAreSendable(s.prev, f);
        TilesAreNumbered(f.pixels, f.stride, seqNo, rs);
      }
    }
  }

  // The number and the count go up together.
  lemma OneMoreNumber(cs: seq<Capture>)
    requires ValidRun(cs) && cs != []
    ensures var (now, before) := (Stream(cs).0.seqNo, Stream(cs[..|cs| - 1]).0.seqNo);
      if FramesSent(cs) == FramesSent(cs[..|cs| - 1]) then now == before
      else FramesSent(cs) == FramesSent(cs[..|cs| - 1]) + 1 && now == NextSeq(before)
  {
    StepIsNumbered(Stream(cs[..|cs| - 1]).0, cs[|cs| - 1]);
  }

  lemma NextOfCount(n: nat)
    ensures NextSeq(n % 0x1_0000_0000) == (n + 1) % 0x1_0000_0000
  {
  }

  lemma {:induction false} NumbersCount(cs: seq<Capture>)
    requires ValidRun(cs)
    ensures Stream(cs).0.seqNo == FramesSent(cs) % 0x1_0000_0000
    decreases |cs|
  {
    if cs != [] {
      NumbersCount(cs[..|cs| - 1]);
      OneMoreNumber(cs);
      NextOfCount(FramesSent(cs[..|cs| - 1]));
    }
  }

  /** The frames of a run are numbered from one, without gaps: every message of the next one
      carries the number of frames sent before it and one, modulo 2^32. */
  lemma FramesAreNumbered(cs: seq<Capture>, c: Capture)
    requires ValidRun(cs) && ValidCapture(c)
    ensures forall m | m in NextStep(cs, c).1 :: m.sequence == (FramesSent(cs) + 1) % 0x1_0000_0000
  {
    NumbersCount(cs);
    StepIsNumbered(Stream(cs).0, c);
    NextOfCount(FramesSent(cs));
  }
}
