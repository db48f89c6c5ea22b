/**
 Tile-based change detection (common/FrameDiff.cpp), and what makes it a sound
 delta encoder: the tiles partition the screen, a tile is sent exactly when it
 holds a difference, and copying the sent tiles brings the old frame up to date.
 */
module FrameDiff {
  import opened Util

  const DEFAULT_TILE: nat := 128

  datatype Rect = Rect(x: nat, y: nat, w: nat, h: nat) {
    predicate Holds(px: nat, py: nat) {
      x <= px < x + w && y <= py < y + h
    }
    function Area(): nat { w * h }
  }

  function Min(a: nat, b: nat): nat { if a < b then a else b }

  // ------------------------------------------------------------------- grid

  // The tiles of one band of rows, from column tx rightwards.
  function Band(ty: nat, th: nat, tx: nat, width: nat, tile: nat): seq<Rect>
    requires tile > 0
    decreases width - tx
  {
    if tx >= width then [] else
      [Rect(tx, ty, Min(tile, width - tx), th)] + Band(ty, th, tx + tile, width, tile)
  }

  // All tiles from row ty downwards, in scan order.
  function Grid(ty: nat, width: nat, height: nat, tile: nat): seq<Rect>
    requires tile > 0
    decreases height - ty
  {
    if ty >= height then [] else
      Band(ty, Min(tile, height - ty), 0, width, tile) + Grid(ty + tile, width, height, tile)
  }

  ghost predicate Within(r: Rect, left: nat, top: nat, right: nat, bottom: nat) {
    r.w > 0 && r.h > 0 && left <= r.x && top <= r.y && r.x + r.w <= right && r.y + r.h <= bottom
  }

  ghost predicate AllWithin(rs: seq<Rect>, left: nat, top: nat, right: nat, bottom: nat) {
    forall i | 0 <= i < |rs| :: Within(rs[i], left, top, right, bottom)
  }

  ghost predicate Disjoint(rs: seq<Rect>) {
    forall i, j, px, py | 0 <= i < j < |rs| && rs[i].Holds(px, py) :: !rs[j].Holds(px, py)
  }

  ghost predicate Covers(rs: seq<Rect>, px: nat, py: nat) {
    exists i | 0 <= i < |rs| :: rs[i].Holds(px, py)
  }

  lemma {:induction false} BandWithin(ty: nat, th: nat, tx: nat, width: nat, tile: nat)
    requires tile > 0 && th > 0
    ensures AllWithin(Band(ty, th, tx, width, tile), tx, ty, width, ty + th)
    ensures Disjoint(Band(ty, th, tx, width, tile))
    decreases width - tx
  {
    if tx < width {
      BandWithin(ty, th, tx + tile, width, tile);
      var rest := Band(ty, th, tx + tile, width, tile);
      var rs := Band(ty, th, tx, width, tile);
      assert forall i | 1 <= i < |rs| :: rs[i] == rest[i - 1];
    }
  }

  lemma {:induction false} BandCovers(ty: nat, th: nat, tx: nat, width: nat, tile: nat, px: nat, py: nat)
    requires tile > 0 && tx <= px < width && ty <= py < ty + th
    ensures Covers(Band(ty, th, tx, width, tile), px, py)
    decreases width - tx
  {
    var rs := Band(ty, th, tx, width, tile);
    if px < tx + tile {
      assert rs[0].Holds(px, py);
    } else {
      BandCovers(ty, th, tx + tile, width, tile, px, py);
      var rest := Band(ty, th, tx + tile, width, tile);
      var i :| 0 <= i < |rest| && rest[i].Holds(px, py);
      assert rs[i + 1] == rest[i];
    }
  }

  /** The scanned tiles lie on the screen and no two of them share a pixel. */
  lemma {:induction false} GridWithin(ty: nat, width: nat, height: nat, tile: nat)
    requires tile > 0
    ensures AllWithin(Grid(ty, width, height, tile), 0, ty, width, height)
    ensures Disjoint(Grid(ty, width, height, tile))
    decreases height - ty
  {
    if ty < height {
      var th := Min(tile, height - ty);
      var band, rest := Band(ty, th, 0, width, tile), Grid(ty + tile, width, height, tile);
      BandWithin(ty, th, 0, width, tile);
      GridWithin(ty + tile, width, height, tile);
      DisjointJoin(band, rest, ty + tile);
    }
  }

  lemma DisjointJoin(upper: seq<Rect>, lower: seq<Rect>, y: nat)
    requires Disjoint(upper) && Disjoint(lower)
    requires forall i | 0 <= i < |upper| :: upper[i].y + upper[i].h <= y
    requires forall i | 0 <= i < |lower| :: y <= lower[i].y
    ensures Disjoint(upper + lower)
  {
    var rs := upper + lower;
    forall i, j, px, py | 0 <= i < j < |rs| && rs[i].Holds(px, py) ensures !rs[j].Holds(px, py) {
      if j < |upper| {
        assert upper[i].Holds(px, py);
      } else if i >= |upper| {
        assert lower[i - |upper|].Holds(px, py);
        assert rs[j] == lower[j - |upper|];
      }
    }
  }

  /** Every pixel of the screen lies in a scanned tile. */
  lemma {:induction false} GridCovers(ty: nat, width: nat, height: nat, tile: nat, px: nat, py: nat)
    requires tile > 0 && px < width && ty <= py < height
    ensures Covers(Grid(ty, width, height, tile), px, py)
    decreases height - ty
  {
    var th := Min(tile, height - ty);
    var band, rest := Band(ty, th, 0, width, tile), Grid(ty + tile, width, height, tile);
    var rs := Grid(ty, width, height, tile);
    if py < ty + tile {
      BandCovers(ty, th, 0, width, tile, px, py);
      var i :| 0 <= i < |band| && band[i].Holds(px, py);
      assert rs[i] == band[i];
    } else {
      GridCovers(ty + tile, width, height, tile, px, py);
      var i :| 0 <= i < |rest| && rest[i].Holds(px, py);
      assert rs[|band| + i] == rest[i];
    }
  }

  // The pixels a list of tiles stands for, counted tile by tile.
  function TotalArea(rs: seq<Rect>): nat {
    if rs == [] then 0 else rs[0].Area() + TotalArea(rs[1..])
  }

  lemma {:induction false} TotalAreaJoin(a: seq<Rect>, b: seq<Rect>)
    ensures TotalArea(a + b) == TotalArea(a) + TotalArea(b)
  {
    if a == [] {
      assert a + b == b;
    } else {
      assert (a + b)[1..] == a[1..] + b;
      TotalAreaJoin(a[1..], b);
    }
  }

  lemma Distribute(a: nat, b: nat, c: nat)
    ensures a * b + a * c == a * (b + c)
    ensures b * a + c * a == (b + c) * a
  {
  }

  lemma {:induction false} BandArea(ty: nat, th: nat, tx: nat, width: nat, tile: nat)
    requires tile > 0 && tx <= width + tile
    ensures TotalArea(Band(ty, th, tx, width, tile)) == (if tx < width then width - tx else 0) * th
    decreases width - tx
  {
    if tx < width {
      var r, rest := Rect(tx, ty, Min(tile, width - tx), th), Band(ty, th, tx + tile, width, tile);
      TotalAreaJoin([r], rest);
      BandArea(ty, th, tx + tile, width, tile);
      assert TotalArea([r]) == r.Area() by { assert [r][1..] == []; }
      var left := if tx + tile < width then width - (tx + tile) else 0;
      Distribute(th, r.w, left);
    }
  }

  /** The scanned tiles hold width * height pixels in all: together with
      GridWithin and GridCovers they are an exact partition of the screen. */
  lemma {:induction false} GridArea(ty: nat, width: nat, height: nat, tile: nat)
    requires tile > 0 && ty <= height + tile
    ensures TotalArea(Grid(ty, width, height, tile)) == width * (if ty < height then height - ty else 0)
    decreases height - ty
  {
    if ty < height {
      var th := Min(tile, height - ty);
      var band, rest := Band(ty, th, 0, width, tile), Grid(ty + tile, width, height, tile);
      TotalAreaJoin(band, rest);
      BandArea(ty, th, 0, width, tile);
      GridArea(ty + tile, width, height, tile);
      var left := if ty + tile < height then height - (ty + tile) else 0;
      Distribute(width, th, left);
    }
  }

  // ------------------------------------------------------------- differences

  // Where row y starts, counted up row by row: y * stride, by RowStartIsProduct.
  function RowStart(y: nat, stride: nat): nat {
    if y == 0 then 0 else RowStart(y - 1, stride) + stride
  }

  lemma {:induction false} RowStartIsProduct(y: nat, stride: nat)
    ensures RowStart(y, stride) == y * stride
  {
    if y > 0 {
      RowStartIsProduct(y - 1, stride);
      assert (y - 1) * stride + stride == y * stride;
    }
  }

  lemma {:induction false} RowStartMonotone(y: nat, z: nat, stride: nat)
    requires y <= z
    ensures RowStart(y, stride) <= RowStart(z, stride)
  {
    if y < z { RowStartMonotone(y, z - 1, stride); }
  }

  // The byte at which pixel (x, y) starts.
  function Offset(x: nat, y: nat, stride: nat): nat { RowStart(y, stride) + x * 4 }

  // Row r of the tile does not fit the buffer, or its bytes are not the same.
  predicate RowDiffers(prev: Bytes, cur: Bytes, stride: nat, rc: Rect, r: nat)
    requires |prev| == |cur|
  {
    var off := Offset(rc.x, rc.y + r, stride);
    off + rc.w * 4 > |cur| || cur[off..off + rc.w * 4] != prev[off..off + rc.w * 4]
  }

  ghost predicate TileDiffers(prev: Bytes, cur: Bytes, stride: nat, rc: Rect)
    requires |prev| == |cur|
  {
    exists r | 0 <= r < rc.h :: RowDiffers(prev, cur, stride, rc, r)
  }

  ghost function Keep(rs: seq<Rect>, keep: Rect -> bool): seq<Rect> {
    if rs == [] then [] else
      var (front, last) := (rs[..|rs| - 1], rs[|rs| - 1]);
      Keep(front, keep) + if keep(last) then [last] else []
  }

  lemma {:induction false} KeepIsExact(rs: seq<Rect>, keep: Rect -> bool, rc: Rect)
    ensures rc in Keep(rs, keep) <==> rc in rs && keep(rc)
  {
    if rs != [] {
      KeepIsExact(rs[..|rs| - 1], keep, rc);
      assert rs == rs[..|rs| - 1] + [rs[|rs| - 1]];
    }
  }

  lemma {:induction false} KeepArea(rs: seq<Rect>, keep: Rect -> bool)
    ensures TotalArea(Keep(rs, keep)) <= TotalArea(rs)
  {
    if rs != [] {
      var front, last := rs[..|rs| - 1], rs[|rs| - 1];
      KeepArea(front, keep);
      assert rs == front + [last];
      TotalAreaJoin(front, [last]);
      TotalAreaJoin(Keep(front, keep), if keep(last) then [last] else []);
    }
  }

  // The tiles of the list that hold a difference, in order.
  ghost function Changed(prev: Bytes, cur: Bytes, stride: nat, rs: seq<Rect>): seq<Rect>
    requires |prev| == |cur|
  {
    Keep(rs, rc => TileDiffers(prev, cur, stride, rc))
  }

  /** A tile is emitted if and only if it is scanned and holds a difference, and
      the emitted tiles never hold more pixels than the screen; a tile size of zero stands
      for 128, and buffers of two sizes have no tiles in common. */
  lemma ChangedIsExact(prev: Bytes, cur: Bytes, width: nat, height: nat, stride: nat, tile: nat, rc: Rect)
    ensures var (out, side) := (ChangedSpec(prev, cur, width, height, stride, tile), if tile == 0 then 128 else tile);
            && (rc in out <==>
                  |prev| == |cur| && rc in Grid(0, width, height, side) && TileDiffers(prev, cur, stride, rc))
            && TotalArea(out) <= width * height
  {
    if |prev| != |cur| { return; }
    var tile := if tile == 0 then 128 else tile;
    var grid := Grid(0, width, height, tile);
    KeepIsExact(grid, rc => TileDiffers(prev, cur, stride, rc), rc);
    KeepArea(grid, rc => TileDiffers(prev, cur, stride, rc));
    GridArea(0, width, height, tile);
  }

  /** The tiles `changedTiles` answers with. */
  ghost function ChangedSpec(prev: Bytes, cur: Bytes, width: nat, height: nat, stride: nat, tile: nat): seq<Rect> {
    if |prev| != |cur| then [] else
      Changed(prev, cur, stride, Grid(0, width, height, if tile == 0 then DEFAULT_TILE else tile))
  }

  // The row loop of the scan: does this tile hold a difference?
  method ScanTile(prev: Bytes, cur: Bytes, stride: u32, tx: u32, ty: u32, tw: nat, th: nat) returns (diff: bool)
    requires |prev| == |cur|
    ensures diff == TileDiffers(prev, cur, stride, Rect(tx, ty, tw, th))
  {
    var rowBytes := tw * 4;
    ghost var rc := Rect(tx, ty, tw, th);
    for r := 0 to th
      invariant forall q | 0 <= q < r :: !RowDiffers(prev, cur, stride, rc, q)
    {
      var off := (ty + r) * stride + tx * 4;
      RowStartIsProduct(ty + r, stride);
      if off + rowBytes > |cur| || cur[off..off + rowBytes] != prev[off..off + rowBytes] {
        assert RowDiffers(prev, cur, stride, rc, r);
        return true;
      }
    }
    return false;
  }

  /** The scan itself.  The bounds keep the 32-bit counters ty and tx from
      wrapping round, where the program's loops would not end. */
  method ChangedTiles(prev: Bytes, cur: Bytes, width: u32, height: u32, stride: u32, tile: u32)
    returns (out: seq<Rect>)
    requires width <= 0x8000_0000 && height <= 0x8000_0000 && tile <= 0x8000_0000
    ensures out == ChangedSpec(prev, cur, width, height, stride, tile)
  {
    out := [];
    if |prev| != |cur| { return; }
    var tile := if tile == 0 then DEFAULT_TILE else tile;
    ghost var grid := Grid(0, width, height, tile);
    ghost var done: seq<Rect> := [];  // the tiles scanned so far
    var ty := 0;
    while ty < height
      invariant ty <= 0xFFFF_FFFF
      invariant done + Grid(ty, width, height, tile) == grid
      invariant out == Changed(prev, cur, stride, done)
    {
      var th := Min(tile, height - ty);
      ghost var below := Grid(ty + tile, width, height, tile);
      Assoc(done, Band(ty, th, 0, width, tile), below);
      var tx := 0;
      while tx < width
        invariant tx <= 0xFFFF_FFFF
        invariant done + Band(ty, th, tx, width, tile) + below == grid
        invariant out == Changed(prev, cur, stride, done)
      {
        var tw := Min(tile, width - tx);
        ghost var rc := Rect(tx, ty, tw, th);
        var diff := ScanTile(prev, cur, stride, tx, ty, tw, th);
        if diff { out := out + [Rect(tx, ty, tw, th)]; }
        assert (done + [rc])[..|done|] == done;
        Assoc(done, [rc], Band(ty, th, tx + tile, width, tile));
        done := done + [rc];
        tx := tx + tile;
      }
      assert done + Band(ty, th, tx, width, tile) == done;
      ty := ty + tile;
    }
    assert done + Grid(ty, width, height, tile) == done;
  }
}
