/**
 The server's side of the screen stream (video/VideoStreamer.cpp): keyframes,
 tile deltas, and the mirror of what the client holds.
 */
module Streamer {
  import opened Util
  import opened Protocol
  import opened FrameDiff
  import opened Viewer

  const VIDEO_CHUNK_SIZE: nat := 256 * 1024

  datatype Frame = Frame(width: nat, height: nat, stride: nat, format: u8, pixels: Bytes)

  // A frame as the capture hands it over: stride * height bytes, a row holding
  // at least its pixels, and sizes that fit the fields of the wire format.
  ghost predicate ValidFrame(f: Frame) {
    && f.width < 0x1_0000 && f.height < 0x1_0000
    && f.width * 4 <= f.stride < 0x8000_0000
    && |f.pixels| == Size(f.stride, f.height)
    && |f.pixels| < 0x1_0000_0000
  }

  datatype Capture = Fresh(frame: Frame) | Timeout | Lost | CaptureError

  ghost predicate ValidCapture(c: Capture) { c.Fresh? ==> ValidFrame(c.frame) }

  datatype Step = Sent | Skipped | Reinitialize | Failed

  // The streamer's fields; prev mirrors the client's buffer.
  datatype Mirror = Mirror(prev: Bytes, w: nat, h: nat, stride: nat, seqNo: u32, keyed: bool)

  const FRESH_MIRROR := Mirror([], 0, 0, 0, 0, false)

  function NextSeq(n: u32): u32 { (n + 1) % 0x1_0000_0000 }

  // ---------------------------------------------------------- what is sent

  function Chunks(pixels: Bytes, seqNo: u32, off: nat): seq<VideoMsg>
    requires |pixels| < 0x1_0000_0000
    decreases |pixels| - off
  {
    if off >= |pixels| then [] else
      var n := Min(VIDEO_CHUNK_SIZE, |pixels| - off);
      [FrameData(seqNo, off, pixels[off..off + n])] + Chunks(pixels, seqNo, off + VIDEO_CHUNK_SIZE)
  }

  function KeyframeMsgs(f: Frame, seqNo: u32): seq<VideoMsg>
    requires ValidFrame(f)
  {
    [FrameInfo(seqNo, f.width, f.height, f.stride, f.format, true)]
    + Chunks(f.pixels, seqNo, 0)
    + [FrameEnd(seqNo)]
  }

  // Every row of the tile lies inside a buffer of len bytes.
  ghost predicate TileFits(rc: Rect, stride: nat, len: nat) {
    forall r | 0 <= r < rc.h :: RowInside(rc, r, stride, len)
  }

  predicate RowInside(rc: Rect, r: nat, stride: nat, len: nat) {
    Offset(rc.x, rc.y + r, stride) + rc.w * 4 <= len
  }

  function RowOf(cur: Bytes, stride: nat, rc: Rect, r: nat): Bytes
    requires RowInside(rc, r, stride, |cur|)
  {
    var off := Offset(rc.x, rc.y + r, stride);
    cur[off..off + rc.w * 4]
  }

  // The first n rows of the tile, tightly packed.
  function TilePixels(cur: Bytes, stride: nat, rc: Rect, n: nat): (p: Bytes)
    requires n <= rc.h && TileFits(rc, stride, |cur|)
  {
    if n == 0 then [] else
      assert RowInside(rc, n - 1, stride, |cur|);
      TilePixels(cur, stride, rc, n - 1) + RowOf(cur, stride, rc, n - 1)
  }

  // The first n rows of the tile copied from cur into buf.
  function CopyRows(buf: Bytes, cur: Bytes, stride: nat, rc: Rect, n: nat): (r: Bytes)
    requires |buf| == |cur| && n <= rc.h && TileFits(rc, stride, |cur|)
    ensures |r| == |cur|
  {
    if n == 0 then buf else
      assert RowInside(rc, n - 1, stride, |cur|);
      CopyRow(CopyRows(buf, cur, stride, rc, n - 1), cur, stride, rc, n - 1)
  }

  function CopyRow(buf: Bytes, cur: Bytes, stride: nat, rc: Rect, r: nat): (out: Bytes)
    requires |buf| == |cur| && RowInside(rc, r, stride, |cur|)
    ensures |out| == |cur|
  {
    Splice(buf, Offset(rc.x, rc.y + r, stride), RowOf(cur, stride, rc, r))
  }

  // Tiles a frame of this geometry can be cut into, as the wire format can name them.
  ghost predicate Sendable(rs: seq<Rect>, stride: nat, len: nat) {
    forall i | 0 <= i < |rs| ::
      && TileFits(rs[i], stride, len)
      && 0 < rs[i].w <= DEFAULT_TILE && 0 < rs[i].h <= DEFAULT_TILE
      && rs[i].x < 0x1_0000 && rs[i].y < 0x1_0000
  }

  function CopyTiles(buf: Bytes, cur: Bytes, stride: nat, rs: seq<Rect>): (r: Bytes)
    requires |buf| == |cur| && Sendable(rs, stride, |cur|)
    ensures |r| == |cur|
  {
    if rs == [] then buf else
      var (front, rc) := (rs[..|rs| - 1], rs[|rs| - 1]);
      CopyRows(CopyTiles(buf, cur, stride, front), cur, stride, rc, rc.h)
  }

  lemma {:induction false} TilePixelsRows(cur: Bytes, stride: nat, rc: Rect, n: nat, r: nat)
    requires n <= rc.h && TileFits(rc, stride, |cur|)
    ensures |TilePixels(cur, stride, rc, n)| == Size(rc.w * 4, n)
    ensures r < n ==>
      && Size(rc.w * 4, r) + rc.w * 4 <= |TilePixels(cur, stride, rc, n)|
      && TilePixels(cur, stride, rc, n)[Size(rc.w * 4, r)..Size(rc.w * 4, r) + rc.w * 4] == RowOf(cur, stride, rc, r)
  {
    if n > 0 {
      TilePixelsRows(cur, stride, rc, n - 1, r);
      if r < n - 1 { RowStartMonotone(r + 1, n - 1, rc.w * 4); }
      assert RowInside(rc, n - 1, stride, |cur|);
    }
  }

  lemma TileSize(rc: Rect)
    requires rc.w <= DEFAULT_TILE && rc.h <= DEFAULT_TILE
    ensures Size(rc.w * 4, rc.h) <= 65536
  {
    RowStartIsProduct(rc.h, rc.w * 4);
    MulMonotone(rc.h, DEFAULT_TILE, rc.w * 4);
  }

  function RectMsg(cur: Bytes, stride: nat, seqNo: u32, rc: Rect): (m: VideoMsg)
    requires TileFits(rc, stride, |cur|) && rc.x < 0x1_0000 && rc.y < 0x1_0000
    requires rc.w <= DEFAULT_TILE && rc.h <= DEFAULT_TILE
    ensures m.FrameRect? && |m.pixels| <= 65536
  {
    TilePixelsRows(cur, stride, rc, rc.h, 0);
    TileSize(rc);
    FrameRect(seqNo, rc.x, rc.y, rc.w, rc.h, TilePixels(cur, stride, rc, rc.h))
  }

  function RectMsgs(cur: Bytes, stride: nat, seqNo: u32, rs: seq<Rect>): (ms: seq<VideoMsg>)
    requires Sendable(rs, stride, |cur|)
    ensures |ms| == |rs|
  {
    if rs == [] then [] else
      RectMsgs(cur, stride, seqNo, rs[..|rs| - 1]) + [RectMsg(cur, stride, seqNo, rs[|rs| - 1])]
  }

  lemma ChangedTilesAreSendable(prev: Bytes, f: Frame)
    requires ValidFrame(f) && |prev| == |f.pixels|
    ensures var rs := ChangedSpec(prev, f.pixels, f.width, f.height, f.stride, DEFAULT_TILE);
      Sendable(rs, f.stride, |f.pixels|) && (rs != [] ==> f.stride > 0)
  {
    var rs := ChangedSpec(prev, f.pixels, f.width, f.height, f.stride, DEFAULT_TILE);
    forall i | 0 <= i < |rs|
      ensures TileFits(rs[i], f.stride, |f.pixels|)
           && 0 < rs[i].w <= DEFAULT_TILE && 0 < rs[i].h <= DEFAULT_TILE
           && rs[i].x < 0x1_0000 && rs[i].y < 0x1_0000 && f.stride > 0
    {
      ChangedIsExact(prev, f.pixels, f.width, f.height, f.stride, DEFAULT_TILE, rs[i]);
      GridTileIsSendable(f, rs[i]);
    }
    if rs != [] { assert TileFits(rs[0], f.stride, |f.pixels|); }
  }

  lemma GridTileIsSendable(f: Frame, rc: Rect)
    requires ValidFrame(f) && rc in Grid(0, f.width, f.height, DEFAULT_TILE)
    ensures TileFits(rc, f.stride, |f.pixels|)
         && 0 < rc.w <= DEFAULT_TILE && 0 < rc.h <= DEFAULT_TILE && rc.x < 0x1_0000 && rc.y < 0x1_0000 && f.stride > 0
  {
    var grid := Grid(0, f.width, f.height, DEFAULT_TILE);
    GridWithin(0, f.width, f.height, DEFAULT_TILE);
    GridTileSize(0, f.width, f.height, DEFAULT_TILE, rc);
    var j :| 0 <= j < |grid| && grid[j] == rc;
    assert Within(grid[j], 0, 0, f.width, f.height);
    forall r | 0 <= r < rc.h ensures RowInside(rc, r, f.stride, |f.pixels|) {
      RowFits(rc.x + rc.w, rc.y + r, f);
    }
  }

  lemma RowFits(right: nat, y: nat, f: Frame)
    requires ValidFrame(f) && right <= f.width && y < f.height
    ensures Offset(0, y, f.stride) + right * 4 <= |f.pixels|
  {
    RowStartMonotone(y + 1, f.height, f.stride);
  }

  lemma {:induction false} GridTileSize(ty: nat, width: nat, height: nat, tile: nat, rc: Rect)
    requires tile > 0 && rc in Grid(ty, width, height, tile)
    ensures rc.w <= tile && rc.h <= tile
    decreases height - ty
  {
    var th := Min(tile, height - ty);
    if rc in Band(ty, th, 0, width, tile) {
      BandTileSize(ty, th, 0, width, tile, rc);
    } else {
      GridTileSize(ty + tile, width, height, tile, rc);
    }
  }

  lemma {:induction false} BandTileSize(ty: nat, th: nat, tx: nat, width: nat, tile: nat, rc: Rect)
    requires tile > 0 && rc in Band(ty, th, tx, width, tile)
    ensures rc.w <= tile && rc.h == th
    decreases width - tx
  {
    if rc != Rect(tx, ty, Min(tile, width - tx), th) {
      BandTileSize(ty, th, tx + tile, width, tile, rc);
    }
  }

  // -------------------------------------------------------------- one step

  ghost predicate NeedsKeyframe(s: Mirror, f: Frame) {
    !s.keyed || f.width != s.w || f.height != s.h || f.stride != s.stride || |s.prev| != |f.pixels|
  }

  // The messages, the result and the new state of one call, when every send succeeds.
  ghost function StreamSpec(s: Mirror, c: Capture): (r: (Mirror, seq<VideoMsg>, Step))
    requires ValidCapture(c)
  {
    match c
    case Timeout => (s, [], Skipped)
    case Lost => (s.(keyed := false), [], Reinitialize)
    case CaptureError => (s, [], Failed)
    case Fresh(f) =>
      var seqNo := NextSeq(s.seqNo);
      if NeedsKeyframe(s, f) then
        (Mirror(f.pixels, f.width, f.height, f.stride, seqNo, true), KeyframeMsgs(f, seqNo), Sent)
      else
        var rs := ChangedSpec(s.prev, f.pixels, f.width, f.height, f.stride, DEFAULT_TILE);
        ChangedTilesAreSendable(s.prev, f);
        DeltaSpec(s, f, rs)
  }

  function DeltaSpec(s: Mirror, f: Frame, rs: seq<Rect>): (r: (Mirror, seq<VideoMsg>, Step))
    requires |s.prev| == |f.pixels| && Sendable(rs, f.stride, |f.pixels|)
  {
    var seqNo := NextSeq(s.seqNo);
    if rs == [] then (s, [], Skipped) else
      (s.(prev := CopyTiles(s.prev, f.pixels, f.stride, rs), seqNo := seqNo),
       RectMsgs(f.pixels, f.stride, seqNo, rs) + [FrameEnd(seqNo)], Sent)
  }

  /** The send callback: an in-order link that fails once `room` messages have
      gone through, for any number of them. */
  class Link {
    var delivered: seq<VideoMsg>
    var room: nat

    constructor (room: nat)
      ensures delivered == [] && this.room == room
    {
      delivered, this.room := [], room;
    }

    method Send(m: VideoMsg) returns (ok: bool)
      modifies this
      ensures ok == (old(room) > 0)
      ensures ok ==> delivered == old(delivered) + [m] && room == old(room) - 1
      ensures !ok ==> delivered == old(delivered) && room == 0
    {
      if room == 0 { return false; }
      delivered, room := delivered + [m], room - 1;
      return true;
    }
  }

  // What sending ms through a link with this much room leaves delivered.
  ghost predicate SentAll(before: seq<VideoMsg>, room: nat, ms: seq<VideoMsg>,
                          after: seq<VideoMsg>, left: nat, ok: bool)
  {
    && ok == (|ms| <= room)
    && (ok ==> after == before + ms && left == room - |ms|)
    && (!ok ==> after == before + ms[..room] && left == 0)
  }

  lemma SentThen(b0: seq<VideoMsg>, r0: nat, m1: seq<VideoMsg>, b1: seq<VideoMsg>, r1: nat,
                 m2: seq<VideoMsg>, b2: seq<VideoMsg>, r2: nat, ok: bool)
    requires SentAll(b0, r0, m1, b1, r1, true) && SentAll(b1, r1, m2, b2, r2, ok)
    ensures SentAll(b0, r0, m1 + m2, b2, r2, ok)
  {
    if !ok {
      assert (m1 + m2)[..r0] == m1 + m2[..r1];
    }
  }

  lemma SentPart(b0: seq<VideoMsg>, r0: nat, m1: seq<VideoMsg>, b1: seq<VideoMsg>, r1: nat, m2: seq<VideoMsg>)
    requires SentAll(b0, r0, m1, b1, r1, false)
    ensures SentAll(b0, r0, m1 + m2, b1, r1, false)
  {
    assert (m1 + m2)[..r0] == m1[..r0];
  }

  class VideoStreamer {
    const link: Link
    var seqNo: u32
    var prevFrame: Bytes  // last frame transmitted (mirrors the client)
    var prevW: nat
    var prevH: nat
    var prevStride: nat
    var sentKeyframe: bool

    constructor (link: Link)
      ensures State() == FRESH_MIRROR && this.link == link
    {
      this.link, seqNo := link, 0;
      prevFrame, prevW, prevH, prevStride, sentKeyframe := [], 0, 0, 0, false;
    }

    ghost function State(): Mirror reads this {
      Mirror(prevFrame, prevW, prevH, prevStride, seqNo, sentKeyframe)
    }

    /** One call: the specified state, messages and result; or, when the link
        fails part-way, an error after a prefix of those messages. */
    method StreamOnce(c: Capture) returns (step: Step)
      requires ValidCapture(c)
      modifies this, link
      ensures var (s, ms, st) := StreamSpec(old(State()), c);
        && SentAll(old(link.delivered), old(link.room), ms, link.delivered, link.room, |ms| <= old(link.room))
        && (|ms| <= old(link.room) ==> State() == s && step == st)
        && (|ms| > old(link.room) ==> step == Failed)
    {
      match c {
        case Timeout => return Skipped;
        case Lost => sentKeyframe := false; return Reinitialize;
        case CaptureError => return Failed;
        case Fresh(frame) =>
          var geomChanged := frame.width != prevW || frame.height != prevH
            || frame.stride != prevStride || |prevFrame| != |frame.pixels|;
          if !sentKeyframe || geomChanged {
            step := SendKeyframe(frame);
          } else {
            step := SendDelta(frame);
          }
      }
    }

    method SendKeyframe(frame: Frame) returns (step: Step)
      requires ValidFrame(frame)
      modifies this, link
      ensures step == Sent || step == Failed
      ensures SentAll(old(link.delivered), old(link.room), KeyframeMsgs(frame, NextSeq(old(seqNo))),
                      link.delivered, link.room, step == Sent)
      ensures step == Sent ==>
        State() == Mirror(frame.pixels, frame.width, frame.height, frame.stride, NextSeq(old(seqNo)), true)
    {
      seqNo := NextSeq(seqNo);
      ghost var b0, r0 := link.delivered, link.room;
      var info := FrameInfo(seqNo, frame.width, frame.height, frame.stride, frame.format, true);
      ghost var chunks, end := Chunks(frame.pixels, seqNo, 0), [FrameEnd(seqNo)];
      assert KeyframeMsgs(frame, seqNo) == [info] + (chunks + end) == [info] + chunks + end;
      var ok := link.Send(info);
      ghost var b1, r1 := link.delivered, link.room;
      if !ok { SentPart(b0, r0, [info], b1, r1, chunks + end); return Failed; }
      ok := SendChunks(frame.pixels);
      ghost var b2, r2 := link.delivered, link.room;
      SentThen(b0, r0, [info], b1, r1, chunks, b2, r2, ok);
      if !ok { SentPart(b0, r0, [info] + chunks, b2, r2, end); return Failed; }
      ok := link.Send(FrameEnd(seqNo));
      SentThen(b0, r0, [info] + chunks, b2, r2, end, link.delivered, link.room, ok);
      if !ok { return Failed; }
      prevFrame, prevW, prevH, prevStride := frame.pixels, frame.width, frame.height, frame.stride;
      sentKeyframe := true;
      return Sent;
    }

    method SendChunks(pixels: Bytes) returns (ok: bool)
      requires |pixels| < 0x1_0000_0000
      modifies link
      ensures SentAll(old(link.delivered), old(link.room), Chunks(pixels, seqNo, 0), link.delivered, link.room, ok)
    {
      ghost var b0, r0 := link.delivered, link.room;
      ghost var done: seq<VideoMsg> := [];
      var off := 0;
      while off < |pixels|
        invariant done + Chunks(pixels, seqNo, off) == Chunks(pixels, seqNo, 0)
        invariant SentAll(b0, r0, done, link.delivered, link.room, true)
      {
        var n := Min(VIDEO_CHUNK_SIZE, |pixels| - off);
        var chunk := FrameData(seqNo, off, pixels[off..off + n]);
        ghost var b1, r1, rest := link.delivered, link.room, Chunks(pixels, seqNo, off + VIDEO_CHUNK_SIZE);
        assert done + ([chunk] + rest) == done + [chunk] + rest;
        ok := link.Send(chunk);
        SentThen(b0, r0, done, b1, r1, [chunk], link.delivered, link.room, ok);
        done := done + [chunk];
        if !ok { SentPart(b0, r0, done, link.delivered, link.room, rest); return; }
        off := off + VIDEO_CHUNK_SIZE;
      }
      assert done + [] == done;
      return true;
    }

    method SendDelta(frame: Frame) returns (step: Step)
      requires ValidFrame(frame) && !NeedsKeyframe(State(), frame)
      modifies this, link
      ensures var (s, ms, st) := StreamSpec(old(State()), Fresh(frame));
        && SentAll(old(link.delivered), old(link.room), ms, link.delivered, link.room, |ms| <= old(link.room))
        && (|ms| <= old(link.room) ==> State() == s && step == st)
        && (|ms| > old(link.room) ==> step == Failed)
    {
      ChangedTilesAreSendable(prevFrame, frame);
      var rects := ChangedTiles(prevFrame, frame.pixels, frame.width, frame.height, frame.stride, DEFAULT_TILE);
      if rects == [] { return Skipped; }
      seqNo := NextSeq(seqNo);
      ghost var b0, r0, tiles := link.delivered, link.room, RectMsgs(frame.pixels, frame.stride, seqNo, rects);
      var ok := SendTiles(frame, rects);
      ghost var b1, r1 := link.delivered, link.room;
      if !ok { SentPart(b0, r0, tiles, b1, r1, [FrameEnd(seqNo)]); return Failed; }
      ok := link.Send(FrameEnd(seqNo));
      SentThen(b0, r0, tiles, b1, r1, [FrameEnd(seqNo)], link.delivered, link.room, ok);
      if !ok { return Failed; }
      return Sent;
    }

    // The tile loop: each changed tile sent, and mirrored.
    method SendTiles(frame: Frame, rects: seq<Rect>) returns (ok: bool)
      requires Sendable(rects, frame.stride, |frame.pixels|) && |prevFrame| == |frame.pixels|
      modifies this`prevFrame, link
      ensures SentAll(old(link.delivered), old(link.room), RectMsgs(frame.pixels, frame.stride, seqNo, rects),
                      link.delivered, link.room, ok)
      ensures ok ==> prevFrame == CopyTiles(old(prevFrame), frame.pixels, frame.stride, rects)
    {
      ghost var b0, r0, all := link.delivered, link.room, RectMsgs(frame.pixels, frame.stride, seqNo, rects);
      for i := 0 to |rects|
        invariant |prevFrame| == |frame.pixels|
        invariant prevFrame == CopyTiles(old(prevFrame), frame.pixels, frame.stride, rects[..i])
        invariant SentAll(b0, r0, RectMsgs(frame.pixels, frame.stride, seqNo, rects[..i]),
                          link.delivered, link.room, true)
      {
        var rc := rects[i];
        var pixels := CopyTile(frame, rc);
        ghost var b1, r1, done := link.delivered, link.room, RectMsgs(frame.pixels, frame.stride, seqNo, rects[..i]);
        var m := FrameRect(seqNo, rc.x, rc.y, rc.w, rc.h, pixels);
        assert rects[..i + 1][..i] == rects[..i];
        ok := link.Send(m);
        SentThen(b0, r0, done, b1, r1, [m], link.delivered, link.room, ok);
        if !ok {
          var rest := RectMsgsSplit(frame.pixels, frame.stride, seqNo, rects, i + 1);
          SentPart(b0, r0, done + [m], link.delivered, link.room, rest);
          return;
        }
      }
      assert rects[..|rects|] == rects;
      return true;
    }

    // The row loop: the tile's pixels, packed, with the mirror brought along.
    method CopyTile(frame: Frame, rc: Rect) returns (pixels: Blob)
      requires TileFits(rc, frame.stride, |frame.pixels|) && |prevFrame| == |frame.pixels|
      requires rc.w <= DEFAULT_TILE && rc.h <= DEFAULT_TILE
      modifies this`prevFrame
      ensures pixels == TilePixels(frame.pixels, frame.stride, rc, rc.h)
      ensures prevFrame == CopyRows(old(prevFrame), frame.pixels, frame.stride, rc, rc.h)
    {
      var packed: Bytes := [];
      for r := 0 to rc.h
        invariant packed == TilePixels(frame.pixels, frame.stride, rc, r)
        invariant |prevFrame| == |frame.pixels|
        invariant prevFrame == CopyRows(old(prevFrame), frame.pixels, frame.stride, rc, r)
      {
        assert RowInside(rc, r, frame.stride, |frame.pixels|);
        var row := CopyOneRow(frame, rc, r);
        packed := packed + row;
      }
      TilePixelsRows(frame.pixels, frame.stride, rc, rc.h, 0);
      TileSize(rc);
      pixels := packed;
    }

    // The body of the row loop: one row taken, and mirrored.
    method CopyOneRow(frame: Frame, rc: Rect, r: nat) returns (row: Bytes)
      requires RowInside(rc, r, frame.stride, |frame.pixels|) && |prevFrame| == |frame.pixels|
      modifies this`prevFrame
      ensures row == RowOf(frame.pixels, frame.stride, rc, r)
      ensures |prevFrame| == |frame.pixels| && prevFrame == CopyRow(old(prevFrame), frame.pixels, frame.stride, rc, r)
    {
      var rowBytes := rc.w * 4;
      var srcOff := (rc.y + r) * frame.stride + rc.x * 4;
      assert srcOff == Offset(rc.x, rc.y + r, frame.stride) by { RowStartIsProduct(rc.y + r, frame.stride); }
      row := frame.pixels[srcOff..srcOff + rowBytes];
      prevFrame := Splice(prevFrame, srcOff, row);
    }
  }

  lemma {:induction false} RectMsgsSplit(cur: Bytes, stride: nat, seqNo: u32, rs: seq<Rect>, i: nat)
    returns (rest: seq<VideoMsg>)
    requires Sendable(rs, stride, |cur|) && i <= |rs|
    ensures RectMsgs(cur, stride, seqNo, rs) == RectMsgs(cur, stride, seqNo, rs[..i]) + rest
  {
    if i == |rs| {
      assert rs[..i] == rs;
      return [];
    }
    var front := rs[..|rs| - 1];
    var r := RectMsgsSplit(cur, stride, seqNo, front, i);
    assert front[..i] == rs[..i];
    rest := r + [RectMsg(cur, stride, seqNo, rs[|rs| - 1])];
  }
}
