/**
 The viewer's reader thread (client/ClientApp.cpp, readerLoop): assembling
 frames into a persistent buffer and presenting it at each FrameEnd.
 */
module Viewer {
  import opened Util
  import opened Protocol
  import opened FrameDiff

  // What the reader thread owns (pending, pw, ph, pstride) and what it presents.
  datatype View = View(front: Bytes, w: nat, h: nat, stride: nat,
                       pending: Bytes, pw: nat, ph: nat, pstride: nat)

  const EMPTY_VIEW := View([], 0, 0, 0, [], 0, 0, 0)

  function Splice(buf: Bytes, off: nat, data: Bytes): (r: Bytes)
    requires off + |data| <= |buf|
    ensures |r| == |buf|
  {
    buf[..off] + data + buf[off + |data|..]
  }

  lemma SpliceAt(buf: Bytes, off: nat, data: Bytes, k: nat)
    requires off + |data| <= |buf| && k < |buf|
    ensures Splice(buf, off, data)[k] == if off <= k < off + |data| then data[k - off] else buf[k]
  {
  }

  // The size in bytes of a buffer of ph rows, and that many zero bytes.
  function Size(stride: nat, rows: nat): nat { RowStart(rows, stride) }

  // The first n rows of a tile blitted at (x, y); a row that does not fit the
  // buffer, or that the payload does not hold, is dropped.
  function BlitRows(buf: Bytes, stride: nat, x: nat, y: nat, w: nat, pixels: Bytes, n: nat): (r: Bytes)
    ensures |r| == |buf|
  {
    if n == 0 then buf else
      BlitRow(BlitRows(buf, stride, x, y, w, pixels, n - 1), stride, x, y, w, pixels, n - 1)
  }

  function BlitRow(buf: Bytes, stride: nat, x: nat, y: nat, w: nat, pixels: Bytes, r: nat): (out: Bytes)
    ensures |out| == |buf|
  {
    var (dst, src) := (Offset(x, y + r, stride), Size(w * 4, r));
    if dst + w * 4 <= |buf| && src + w * 4 <= |pixels|
    then Splice(buf, dst, pixels[src..src + w * 4]) else buf
  }

  // A stride is held in a signed 32-bit integer.
  predicate Accepted(m: VideoMsg) {
    m.FrameInfo? ==> m.stride < 0x8000_0000
  }

  function Apply(v: View, m: VideoMsg): View
    requires Accepted(m)
  {
    match m
    case FrameInfo(_, width, height, stride, _, _) =>
      v.(pw := width, ph := height, pstride := stride, pending := Zeros(Size(stride, height)))
    case FrameData(_, offset, data) =>
      if offset + |data| <= |v.pending| then v.(pending := Splice(v.pending, offset, data)) else v
    case FrameRect(_, x, y, w, h, pixels) =>
      if v.pstride > 0 && w > 0 && h > 0
      then v.(pending := BlitRows(v.pending, v.pstride, x, y, w, pixels, h)) else v
    case FrameEnd(_) =>
      v.(front := v.pending, w := v.pw, h := v.ph, stride := v.pstride)
  }

  ghost predicate AllAccepted(ms: seq<VideoMsg>) {
    forall i | 0 <= i < |ms| :: Accepted(ms[i])
  }

  function ApplyAll(v: View, ms: seq<VideoMsg>): View
    requires AllAccepted(ms)
  {
    if ms == [] then v else Apply(ApplyAll(v, ms[..|ms| - 1]), ms[|ms| - 1])
  }

  lemma {:induction false} ApplyAllJoin(v: View, a: seq<VideoMsg>, b: seq<VideoMsg>)
    requires AllAccepted(a) && AllAccepted(b)
    ensures AllAccepted(a + b)
    ensures ApplyAll(v, a + b) == ApplyAll(ApplyAll(v, a), b)
  {
    if b == [] {
      assert a + b == a;
    } else {
      var front := b[..|b| - 1];
      assert (a + b)[..|a + b| - 1] == a + front;
      ApplyAllJoin(v, a, front);
    }
  }

  // ------------------------------------------------------------------ safety

  ghost predicate Sized(v: View) { |v.pending| == Size(v.pstride, v.ph) }

  // The bytes of the buffer a message may write.
  ghost predicate Touches(m: VideoMsg, pstride: nat, k: nat) {
    match m
    case FrameInfo(_, _, _, _, _, _) => true
    case FrameData(_, offset, data) => offset <= k < offset + |data|
    case FrameRect(_, x, y, w, h, _) => exists r | 0 <= r < h :: InRow(x, y, w, pstride, r, k)
    case FrameEnd(_) => false
  }

  predicate InRow(x: nat, y: nat, w: nat, stride: nat, r: nat, k: nat) {
    Offset(x, y + r, stride) <= k < Offset(x, y + r, stride) + w * 4
  }

  lemma BlitRowFrame(buf: Bytes, stride: nat, x: nat, y: nat, w: nat, pixels: Bytes, r: nat, k: nat)
    requires k < |buf| && !InRow(x, y, w, stride, r, k)
    ensures BlitRow(buf, stride, x, y, w, pixels, r)[k] == buf[k]
  {
    var (dst, src) := (Offset(x, y + r, stride), Size(w * 4, r));
    if dst + w * 4 <= |buf| && src + w * 4 <= |pixels| {
      SpliceAt(buf, dst, pixels[src..src + w * 4], k);
    }
  }

  lemma {:induction false} BlitRowsFrame(buf: Bytes, stride: nat, x: nat, y: nat, w: nat, pixels: Bytes, n: nat, k: nat)
    requires k < |buf| && forall r | 0 <= r < n :: !InRow(x, y, w, stride, r, k)
    ensures BlitRows(buf, stride, x, y, w, pixels, n)[k] == buf[k]
  {
    if n > 0 {
      BlitRowsFrame(buf, stride, x, y, w, pixels, n - 1, k);
      BlitRowFrame(BlitRows(buf, stride, x, y, w, pixels, n - 1), stride, x, y, w, pixels, n - 1, k);
    }
  }

  /** Whatever a message says, the buffer keeps the size of its announced
      geometry, and bytes the message does not address keep their value. */
  lemma MessageStaysInside(v: View, m: VideoMsg, k: nat)
    requires Accepted(m) && Sized(v)
    ensures Sized(Apply(v, m))
    ensures k < |v.pending| && !Touches(m, v.pstride, k) ==> Apply(v, m).pending[k] == v.pending[k]
  {
    if k < |v.pending| && !Touches(m, v.pstride, k) && m.FrameRect? {
      BlitRowsFrame(v.pending, v.pstride, m.x, m.y, m.w, m.pixels, m.h, k);
    }
  }

  // Row r of a tile lands in the buffer and byte k is of it: the row fits, and the payload holds it.
  predicate Decides(len: nat, stride: nat, x: nat, y: nat, w: nat, pixels: Bytes, r: nat, k: nat) {
    && Offset(x, y + r, stride) + w * 4 <= len && Size(w * 4, r) + w * 4 <= |pixels|
    && InRow(x, y, w, stride, r, k)
  }

  // The byte the first n rows of a tile leave at k: the last of them that lands there decides.
  function TileByte(buf: Bytes, stride: nat, x: nat, y: nat, w: nat, pixels: Bytes, n: nat, k: nat): byte
    requires k < |buf|
  {
    if n == 0 then buf[k]
    else if Decides(|buf|, stride, x, y, w, pixels, n - 1, k)
    then pixels[Size(w * 4, n - 1) + (k - Offset(x, y + (n - 1), stride))]
    else TileByte(buf, stride, x, y, w, pixels, n - 1, k)
  }

  lemma BlitRowAt(buf: Bytes, stride: nat, x: nat, y: nat, w: nat, pixels: Bytes, r: nat, k: nat)
    requires k < |buf|
    ensures BlitRow(buf, stride, x, y, w, pixels, r)[k]
         == if Decides(|buf|, stride, x, y, w, pixels, r, k)
            then pixels[Size(w * 4, r) + (k - Offset(x, y + r, stride))] else buf[k]
  {
    var (dst, src) := (Offset(x, y + r, stride), Size(w * 4, r));
    if dst + w * 4 <= |buf| && src + w * 4 <= |pixels| { SpliceAt(buf, dst, pixels[src..src + w * 4], k); }
  }

  lemma {:induction false} BlitRowsAt(buf: Bytes, stride: nat, x: nat, y: nat, w: nat, pixels: Bytes, n: nat, k: nat)
    requires k < |buf|
    ensures BlitRows(buf, stride, x, y, w, pixels, n)[k] == TileByte(buf, stride, x, y, w, pixels, n, k)
  {
    if n > 0 {
      var before := BlitRows(buf, stride, x, y, w, pixels, n - 1);
      assert BlitRows(buf, stride, x, y, w, pixels, n) == BlitRow(before, stride, x, y, w, pixels, n - 1);
      BlitRowsAt(buf, stride, x, y, w, pixels, n - 1, k);
      BlitRowAt(before, stride, x, y, w, pixels, n - 1, k);
    }
  }

  /** Exactly what each message makes of every byte of the buffer: a new geometry clears it, a
      chunk that fits is copied and one that does not is dropped, the rows of a tile that land
      are copied, and the end of a frame changes none but presents them all. */
  lemma MessageWrites(v: View, m: VideoMsg, k: nat)
    requires Accepted(m) && k < |Apply(v, m).pending|
    ensures var v' := Apply(v, m);
      match m
      case FrameInfo(_, w, h, stride, _, _) =>
        v'.pending[k] == 0 && v'.pw == w && v'.ph == h && v'.pstride == stride && |v'.pending| == h * stride
        && v'.front == v.front
      case FrameData(_, offset, data) =>
        && |v'.pending| == |v.pending|
        && v'.pending[k] == (if offset + |data| <= |v.pending| && offset <= k < offset + |data|
                             then data[k - offset] else v.pending[k])
        && v' == v.(pending := v'.pending)
      case FrameRect(_, _, _, _, _, _) =>
        && |v'.pending| == |v.pending|
        && v'.pending[k] == (if v.pstride > 0 && m.w > 0
                             then TileByte(v.pending, v.pstride, m.x, m.y, m.w, m.pixels, m.h, k) else v.pending[k])
        && v' == v.(pending := v'.pending)
      case FrameEnd(_) => v' == View(v.pending, v.pw, v.ph, v.pstride, v.pending, v.pw, v.ph, v.pstride)
  {
    match m
    case FrameInfo(_, _, h, stride, _, _) => RowStartIsProduct(h, stride);
    case FrameRect(_, x, y, w, h, pixels) => BlitRowsAt(v.pending, v.pstride, x, y, w, pixels, h, k);
    case _ =>
  }

  lemma {:induction false} AlwaysSized(ms: seq<VideoMsg>)
    requires AllAccepted(ms)
    ensures Sized(ApplyAll(EMPTY_VIEW, ms))
  {
    if ms != [] {
      AlwaysSized(ms[..|ms| - 1]);
      MessageStaysInside(ApplyAll(EMPTY_VIEW, ms[..|ms| - 1]), ms[|ms| - 1], 0);
    }
  }

  // What one more message does to the front.
  lemma FrontAfter(ms: seq<VideoMsg>)
    requires AllAccepted(ms) && ms != []
    ensures var (v, w) := (ApplyAll(EMPTY_VIEW, ms), ApplyAll(EMPTY_VIEW, ms[..|ms| - 1]));
      if ms[|ms| - 1].FrameEnd? then v.front == v.pending && v.w == v.pw && v.h == v.ph && v.stride == v.pstride
      else v.front == w.front && v.w == w.w && v.h == w.h && v.stride == w.stride
  {
  }

  /** In every run the buffer has the announced size, and what is presented is
      the buffer as it stood at the latest FrameEnd. */
  lemma {:induction false} FrontIsASnapshot(ms: seq<VideoMsg>) returns (j: nat)
    requires AllAccepted(ms)
    ensures Sized(ApplyAll(EMPTY_VIEW, ms))
    ensures j <= |ms| && forall i | j <= i < |ms| :: !ms[i].FrameEnd?
    ensures j == 0 || ms[j - 1].FrameEnd?
    ensures var (v, w) := (ApplyAll(EMPTY_VIEW, ms), ApplyAll(EMPTY_VIEW, ms[..j]));
            v.front == w.pending && v.w == w.pw && v.h == w.ph && v.stride == w.pstride
  {
    AlwaysSized(ms);
    if ms == [] { return 0; }
    FrontAfter(ms);
    var front := ms[..|ms| - 1];
    j := FrontIsASnapshot(front);
    if ms[|ms| - 1].FrameEnd? {
      j := |ms|;
      assert ms[..j] == ms;
    } else {
      assert ms[..j] == front[..j];
    }
  }

  // ------------------------------------------------------------- the program

  // The messages the reader thread acts on: the video ones up to Bye or Error.
  function Watched(ms: seq<Msg>): seq<VideoMsg> {
    if ms == [] then [] else
      match ms[0]
      case Video(m) => [m] + Watched(ms[1..])
      case Control(m) => if m.Ping? then Watched(ms[1..]) else []
      case _ => Watched(ms[1..])
  }

  // Neither a good-bye nor an error.
  predicate GoesOn(m: Msg) { m.Control? ==> m.control.Ping? }

  // The video messages among these.
  function Videos(ms: seq<Msg>): seq<VideoMsg> {
    if ms == [] then [] else (if ms[0].Video? then [ms[0].video] else []) + Videos(ms[1..])
  }

  /** What the reader thread acts on: all the video messages before the first good-bye or error,
      and none after it. */
  lemma {:induction false} WatchedUpToTheEnd(a: seq<Msg>, b: seq<Msg>)
    requires (forall m | m in a :: GoesOn(m)) && (b != [] ==> !GoesOn(b[0]))
    ensures Watched(a + b) == Videos(a)
  {
    if a == [] {
      assert a + b == b;
    } else {
      assert (a + b)[1..] == a[1..] + b && a[0] in a;
      assert forall m | m in a[1..] :: m in a;
      WatchedUpToTheEnd(a[1..], b);
    }
  }

  // Reading on from a view, one message at a time.
  ghost function ReadFrom(v: View, ms: seq<Msg>): View
    requires AllAccepted(Watched(ms))
    decreases |ms|
  {
    if ms == [] then v else
      WatchedTail(ms);
      match ms[0]
      case Video(m) => ReadFrom(Apply(v, m), ms[1..])
      case Control(m) => if m.Ping? then ReadFrom(v, ms[1..]) else v
      case _ => ReadFrom(v, ms[1..])
  }

  lemma WatchedTail(ms: seq<Msg>)
    requires ms != [] && AllAccepted(Watched(ms))
    ensures ms[0].Video? ==> Accepted(ms[0].video)
    ensures !ms[0].Control? || ms[0].control.Ping? ==> AllAccepted(Watched(ms[1..]))
  {
    if ms[0].Video? {
      assert Watched(ms)[0] == ms[0].video;
      assert Watched(ms)[1..] == Watched(ms[1..]);
    }
  }

  lemma {:induction false} Reading(v: View, ms: seq<Msg>)
    requires AllAccepted(Watched(ms))
    ensures ReadFrom(v, ms) == ApplyAll(v, Watched(ms))
    decreases |ms|
  {
    if ms != [] {
      WatchedTail(ms);
      if ms[0].Video? {
        var m := ms[0].video;
        Reading(Apply(v, m), ms[1..]);
        ApplyAllJoin(v, [m], Watched(ms[1..]));
        assert [m][..0] == [];
      } else if !ms[0].Control? || ms[0].control.Ping? {
        Reading(v, ms[1..]);
      }
    }
  }

  class ViewerState {
    var w: nat
    var h: nat
    var stride: nat
    var front: Bytes    // last complete frame
    var pending: Bytes  // frame being assembled
    var pw: nat
    var ph: nat
    var pstride: nat
    var running: bool

    constructor ()
      ensures State() == EMPTY_VIEW && running
    {
      w, h, stride, front, pending, pw, ph, pstride := 0, 0, 0, [], [], 0, 0, 0;
      running := true;
    }

    ghost function State(): View reads this {
      View(front, w, h, stride, pending, pw, ph, pstride)
    }

    method Handle(m: VideoMsg)
      requires Accepted(m)
      modifies this
      ensures State() == Apply(old(State()), m) && running == old(running)
    {
      match m {
        case FrameInfo(_, width, height, strideBytes, _, _) =>
          pw, ph, pstride := width, height, strideBytes;
          Reset();
        case FrameData(_, offset, data) =>
          if offset + |data| <= |pending| {
            pending := pending[..offset] + data + pending[offset + |data|..];
          }
        case FrameRect(_, x, y, rw, rh, pixels) =>
          if pstride > 0 && rw > 0 && rh > 0 {
            Blit(x, y, rw, rh, pixels);
          }
        case FrameEnd(_) =>
          front, w, h, stride := pending, pw, ph, pstride;
      }
    }

    method Reset()
      modifies this`pending
      ensures pending == Zeros(Size(pstride, ph))
    {
      RowStartIsProduct(ph, pstride);
      pending := Zeros(pstride * ph);
    }

    method Blit(x: nat, y: nat, rw: nat, rh: nat, pixels: Bytes)
      modifies this`pending
      ensures pending == BlitRows(old(pending), pstride, x, y, rw, pixels, rh)
    {
      var rowBytes := rw * 4;
      for r := 0 to rh
        invariant pending == BlitRows(old(pending), pstride, x, y, rw, pixels, r)
      {
        BlitOneRow(x, y, rowBytes, pixels, r);
        assert rowBytes == rw * 4;
      }
    }

    // The body of the row loop.
    method BlitOneRow(x: nat, y: nat, rowBytes: nat, pixels: Bytes, r: nat)
      requires rowBytes % 4 == 0
      modifies this`pending
      ensures pending == BlitRow(old(pending), pstride, x, y, rowBytes / 4, pixels, r)
    {
      var dst := (y + r) * pstride + x * 4;
      var src := r * rowBytes;
      assert dst == Offset(x, y + r, pstride) by { RowStartIsProduct(y + r, pstride); }
      assert src == Size(rowBytes, r) by { RowStartIsProduct(r, rowBytes); }
      assert rowBytes == rowBytes / 4 * 4;
      if dst + rowBytes <= |pending| && src + rowBytes <= |pixels| {
        pending := pending[..dst] + pixels[src..src + rowBytes] + pending[dst + rowBytes..];
      }
    }

    // ms: the messages the transport hands over, until it fails.
    method ReaderLoop(ms: seq<Msg>)
      requires running && AllAccepted(Watched(ms))
      modifies this
      ensures State() == ApplyAll(old(State()), Watched(ms)) && !running
    {
      Reading(State(), ms);
      ghost var last := ReadFrom(State(), ms);
      var i := 0;
      while i < |ms|
        invariant 0 <= i <= |ms| && AllAccepted(Watched(ms[i..]))
        invariant ReadFrom(State(), ms[i..]) == last
      {
        var m := ms[i];
        assert ms[i..][0] == m && ms[i..][1..] == ms[i + 1..];
        WatchedTail(ms[i..]);
        if m.Control? && !m.control.Ping? {
          running := false;
          return;
        }
        if m.Video? { Handle(m.video); }
        i := i + 1;
      }
      running := false;
    }
  }
}
