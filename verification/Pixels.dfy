// Where a pixel of the logical view lives in the build buffer (modex.c).
// The buffer holds the four planes of the screen, plane 3 first; a pixel (x,y)
// is in plane x mod 4, and the whole image slides as the view moves.
module Pixels {
  import opened Arith

  const BLOCK_X_DIM := 12
  const BLOCK_Y_DIM := 12
  const SCROLL_X_DIM := 320
  const SCROLL_Y_DIM := 182
  const SCROLL_X_WIDTH := 80
  const SCROLL_SIZE := SCROLL_X_WIDTH * SCROLL_Y_DIM
  const SCREEN_SIZE := SCROLL_SIZE * 4 + 1
  const BUILD_BUF_SIZE := SCREEN_SIZE + 20000
  const BUILD_BASE_INIT := (BUILD_BUF_SIZE - SCREEN_SIZE) / 2
  const MEM_FENCE_WIDTH := 256

  // A picture of one block, one byte a pixel, row by row.
  type Picture = p: seq<bv8> | |p| == BLOCK_X_DIM * BLOCK_Y_DIM witness seq(144, _ => 0)

  // The offset of pixel (x,y) from img3.  x >> 2 and x & 3 round towards minus
  // infinity, as division and remainder by 4 do here.
  function Off(x: int, y: int): int {
    x / 4 + y * SCROLL_X_WIDTH + (3 - x % 4) * SCROLL_SIZE
  }

  predicate InWindow(sx: int, sy: int, x: int, y: int) {
    sx <= x < sx + SCROLL_X_DIM && sy <= y < sy + SCROLL_Y_DIM
  }

  // The test with which set_view_window decides that nothing need move.
  predicate Fits(off: int, sx: int, sy: int) {
    && off + sx / 4 + sy * SCROLL_X_WIDTH >= 0
    && off + 3 * SCROLL_SIZE + (sx + SCROLL_X_DIM - 1) / 4 + (sy + SCROLL_Y_DIM - 1) * SCROLL_X_WIDTH < BUILD_BUF_SIZE
  }

  // The four planes of a 320 by 182 window never collide, whatever its
  // alignment.
  lemma OffInjective(sx: int, sy: int, x: int, y: int, x': int, y': int)
    requires InWindow(sx, sy, x, y) && InWindow(sx, sy, x', y') && Off(x, y) == Off(x', y')
    ensures x == x' && y == y'
  {
    var r := x / 4 - sx / 4 + SCROLL_X_WIDTH * (y - sy);
    var r' := x' / 4 - sx / 4 + SCROLL_X_WIDTH * (y' - sy);
    assert 0 <= r <= SCROLL_SIZE && 0 <= r' <= SCROLL_SIZE;
    assert r - r' == (x % 4 - x' % 4) * SCROLL_SIZE;
    if r == r' && x % 4 == x' % 4 { assert x / 4 - x' / 4 == SCROLL_X_WIDTH * (y' - y); }
  }

  lemma InBuffer(off: int, sx: int, sy: int, x: int, y: int)
    requires Fits(off, sx, sy) && InWindow(sx, sy, x, y)
    ensures 0 <= off + Off(x, y) < BUILD_BUF_SIZE
  {}

  // The view placed in the middle of the buffer always fits.
  lemma MiddleFits(sx: int, sy: int)
    ensures Fits(BUILD_BASE_INIT - sx / 4 - sy * SCROLL_X_WIDTH, sx, sy)
  {}

  // Both views of an overlapping move contain the copied stretch, and the
  // stretch contains every pixel the views share.
  lemma CopiedStretch(off: int, sx: int, sy: int, x0: int, y0: int, x1: int, y1: int)
    requires Fits(off, sx, sy)
    requires sx <= x0 <= x1 < sx + SCROLL_X_DIM && sy <= y0 <= y1 < sy + SCROLL_Y_DIM
    ensures var start := x0 / 4 + y0 * SCROLL_X_WIDTH;
      var length := x1 / 4 + y1 * SCROLL_X_WIDTH + 1 - start + 3 * SCROLL_SIZE;
      && 0 <= off + start && 0 < length && off + start + length <= BUILD_BUF_SIZE
      && forall x, y :: x0 <= x <= x1 && y0 <= y <= y1 ==> 0 <= Off(x, y) - start < length
  {}

  predicate InBlock(px: int, py: int, x: int, y: int) {
    px <= x < px + BLOCK_X_DIM && py <= y < py + BLOCK_Y_DIM
  }

  function BlockIndex(px: int, py: int, x: int, y: int): int {
    (y - py) * BLOCK_X_DIM + (x - px)
  }

  // The bytes of the build buffer that hold the visible part of a block.
  ghost function BlockBytes(off: int, sx: int, sy: int, px: int, py: int): set<int> {
    set x, y | px <= x < px + BLOCK_X_DIM && py <= y < py + BLOCK_Y_DIM && InWindow(sx, sy, x, y)
      :: MEM_FENCE_WIDTH + off + Off(x, y)
  }

  // The visible part of a block: its corner and size.
  datatype Clipped = Clipped(x0: int, y0: int, w: int, h: int) {
    predicate Legal() { 0 <= w <= BLOCK_X_DIM && 0 <= h <= BLOCK_Y_DIM }

    predicate Has(x: int, y: int) { x0 <= x < x0 + w && y0 <= y < y0 + h }

    // How many visible pixels come before (x,y).
    function Nth(x: int, y: int): int { Rows(w, y - y0) + (x - x0) }

    function Count(): int { Rows(w, h) }
  }

  // The number of pixels in k rows of w.
  function Rows(w: int, k: int): int {
    if k <= 0 then 0 else Rows(w, k - 1) + w
  }

  lemma {:induction false} RowsOrder(w: int, k: int, k': int)
    requires 0 <= w <= BLOCK_X_DIM && 0 <= k <= k'
    ensures k < k' ==> Rows(w, k) + w <= Rows(w, k')
    ensures 0 <= Rows(w, k) <= Rows(w, k') <= Rows(w, k) + BLOCK_X_DIM * (k' - k)
    decreases k'
  {
    if k < k' { RowsOrder(w, k, k' - 1); } else if k > 0 { RowsOrder(w, k - 1, k' - 1); }
  }

  lemma NthOrder(c: Clipped, x: int, y: int, x': int, y': int)
    requires c.Legal() && c.Has(x, y) && c.Has(x', y')
    ensures 0 <= c.Nth(x, y) < c.Count() <= BLOCK_X_DIM * BLOCK_Y_DIM
    ensures c.Nth(x, y) < c.Nth(x', y') <==> Before(x, y, x', y')
  {
    RowsOrder(c.w, 0, y - c.y0);
    RowsOrder(c.w, 0, c.h);
    RowsOrder(c.w, y - c.y0, c.h);
    if y <= y' { RowsOrder(c.w, y - c.y0, y' - c.y0); }
    if y' <= y { RowsOrder(c.w, y' - c.y0, y - c.y0); }
  }

  // The clipping arithmetic of draw_full_block and draw_mask_block.
  function Clip(sx: int, sy: int, px: int, py: int): (c: Clipped)
    ensures c.Legal()
    ensures forall x, y :: c.Has(x, y) <==> InWindow(sx, sy, x, y) && InBlock(px, py, x, y)
  {
    var left := if sx - px < 0 then 0 else sx - px;
    var top := if sy - py < 0 then 0 else sy - py;
    var right := if sx + SCROLL_X_DIM - px > BLOCK_X_DIM then BLOCK_X_DIM else sx + SCROLL_X_DIM - px;
    var bottom := if sy + SCROLL_Y_DIM - py > BLOCK_Y_DIM then BLOCK_Y_DIM else sy + SCROLL_Y_DIM - py;
    if px + BLOCK_X_DIM <= sx || px >= sx + SCROLL_X_DIM || py + BLOCK_Y_DIM <= sy || py >= sy + SCROLL_Y_DIM then
      Clipped(px, py, 0, 0)
    else
      Clipped(px + left, py + top, right - left, bottom - top)
  }

  ghost predicate Masked(c: Clipped, mask: Picture, x: int, y: int) {
    0 <= c.Nth(x, y) < |mask| && mask[c.Nth(x, y)] == 1
  }

  ghost predicate SavedAt(c: Clipped, saved: Picture, x: int, y: int, v: bv8) {
    0 <= c.Nth(x, y) < |saved| && saved[c.Nth(x, y)] == v
  }

  lemma RowFits(c: Clipped, dy: int)
    requires c.Legal() && 0 <= dy < c.h
    ensures 0 <= Rows(c.w, dy) && Rows(c.w, dy) + c.w <= BLOCK_X_DIM * BLOCK_Y_DIM
      && Rows(c.w, dy + 1) == Rows(c.w, dy) + c.w
  {
    RowsOrder(c.w, 0, dy);
    RowsOrder(c.w, 0, c.h);
    RowsOrder(c.w, dy, c.h);
  }

  lemma RowVisible(sx: int, sy: int, px: int, py: int, y: int)
    requires var c := Clip(sx, sy, px, py); c.y0 <= y < c.y0 + c.h
    ensures var c := Clip(sx, sy, px, py);
      && c.w > 0 && 0 <= BlockIndex(px, py, c.x0, y)
      && BlockIndex(px, py, c.x0, y) + c.w <= BLOCK_X_DIM * BLOCK_Y_DIM
      && forall x :: c.x0 <= x < c.x0 + c.w ==> InWindow(sx, sy, x, y) && InBlock(px, py, x, y)
  {}

  // Saving row dy records its pixels and keeps those of the rows above.
  lemma SavedRow(c: Clipped, dy: int, x: int, y: int, mask: Picture, saved: Picture, saved': Picture, v: bv8)
    requires c.Legal() && 0 <= dy < c.h && c.Has(x, y) && y <= c.y0 + dy
    requires forall i :: 0 <= i < |saved| && i < Rows(c.w, dy) ==> saved'[i] == saved[i]
    requires y < c.y0 + dy ==> SavedAt(c, saved, x, y, v)
    requires 0 <= Rows(c.w, dy) && Rows(c.w, dy) + c.w <= |saved|
    requires y == c.y0 + dy ==> saved'[Rows(c.w, dy) + x - c.x0] == v
    ensures SavedAt(c, saved', x, y, v)
    ensures y == c.y0 + dy ==> (Masked(c, mask, x, y) <==> mask[Rows(c.w, dy) + x - c.x0] == 1)
  {
    RowFits(c, dy);
    RowsOrder(c.w, 0, y - c.y0);
    RowsOrder(c.w, y - c.y0, dy);
  }

  // ----- from the build buffer to the display -----

  // Where the pixels of display plane i start: the plane that holds columns
  // sx + i, sx + i + 4, ..., one byte on when that crosses a multiple of four.
  function PlaneOff(sx: int, sy: int, i: int): int {
    var pOff := 3 - sx % 4;
    sx / 4 + sy * SCROLL_X_WIDTH + ((pOff - i + 4) % 4) * SCROLL_SIZE + (if pOff < i then 1 else 0)
  }

  lemma PlaneInBuffer(off: int, sx: int, sy: int, i: int)
    requires Fits(off, sx, sy) && 0 <= i < 4
    ensures 0 <= off + PlaneOff(sx, sy, i) && off + PlaneOff(sx, sy, i) + SCROLL_SIZE <= BUILD_BUF_SIZE
  {}

  // Pixel (sx + dx, sy + dy) is byte dy * 80 + dx / 4 of display plane dx mod 4.
  lemma PlanePixel(off: int, sx: int, sy: int, dx: int, dy: int)
    requires Fits(off, sx, sy) && 0 <= dx < SCROLL_X_DIM && 0 <= dy < SCROLL_Y_DIM
    ensures InWindow(sx, sy, sx + dx, sy + dy)
    ensures PlaneOff(sx, sy, dx % 4) + dy * SCROLL_X_WIDTH + dx / 4 == Off(sx + dx, sy + dy)
    ensures 0 <= dy * SCROLL_X_WIDTH + dx / 4 < SCROLL_SIZE
  {
    var i, q, s := dx % 4, dx / 4, sx % 4;
    assert sx + dx == 4 * (sx / 4 + q) + (s + i);
    if s + i < 4 {
      assert (sx + dx) / 4 == sx / 4 + q && (sx + dx) % 4 == s + i;
    } else {
      assert (sx + dx) / 4 == sx / 4 + q + 1 && (sx + dx) % 4 == s + i - 4;
    }
  }

  // ----- drawing and undrawing the player -----

  // What draw_mask_block leaves in its save buffer: the visible pixels in order,
  // and behind them what was there before.
  ghost predicate SavedFrom(c: Clipped, v: (int, int) -> bv8, saved0: Picture, saved: Picture) {
    && (forall x, y :: c.Has(x, y) ==> SavedAt(c, saved, x, y, v(x, y)))
    && (forall i :: 0 <= i < |saved| && c.Count() <= i ==> saved[i] == saved0[i])
  }

  // draw_full_block with that buffer puts every visible pixel back.
  ghost predicate PutsBack(c: Clipped, px: int, py: int, v: (int, int) -> bv8, saved: Picture) {
    forall x, y :: c.Has(x, y) && InBlock(px, py, x, y) ==> saved[BlockIndex(px, py, x, y)] == v(x, y)
  }

  // The block is out of sight, or its first row and column are visible and either
  // whole rows or only one row.
  predicate Restorable(sx: int, sy: int, px: int, py: int) {
    var c := Clip(sx, sy, px, py);
    c.w == 0 || c.h == 0 || (c.x0 == px && c.y0 == py && (c.w == BLOCK_X_DIM || c.h == 1))
  }

  lemma {:induction false} WholeRows(k: int)
    requires 0 <= k
    ensures Rows(BLOCK_X_DIM, k) == BLOCK_X_DIM * k
  {
    if k > 0 { WholeRows(k - 1); }
  }

  lemma {:induction false} ShortRows(w: int, k: int)
    requires 0 <= k && w < BLOCK_X_DIM
    ensures Rows(w, k) <= (BLOCK_X_DIM - 1) * k
  {
    if k > 0 { ShortRows(w, k - 1); }
  }

  lemma RestorableIndex(sx: int, sy: int, px: int, py: int, x: int, y: int)
    requires Restorable(sx, sy, px, py) && Clip(sx, sy, px, py).Has(x, y)
    ensures Clip(sx, sy, px, py).Nth(x, y) == BlockIndex(px, py, x, y)
  {
    WholeRows(y - py);
  }

  // Undrawing restores the view, whatever it held and whatever the save buffer
  // held before, exactly when the block is restorable.
  lemma UndrawRestoresIff(sx: int, sy: int, px: int, py: int)
    ensures
      (forall v, saved0, saved :: SavedFrom(Clip(sx, sy, px, py), v, saved0, saved) ==>
        PutsBack(Clip(sx, sy, px, py), px, py, v, saved))
      <==> Restorable(sx, sy, px, py)
  {
    var c := Clip(sx, sy, px, py);
    if Restorable(sx, sy, px, py) {
      forall v, saved0, saved | SavedFrom(c, v, saved0, saved)
        ensures PutsBack(c, px, py, v, saved)
      {
        forall x, y | c.Has(x, y)
          ensures saved[BlockIndex(px, py, x, y)] == v(x, y)
        {
          RestorableIndex(sx, sy, px, py, x, y);
        }
      }
    } else {
      NotRestored(sx, sy, px, py);
    }
  }

  // For instance a block whose first column is off the left of the view.
  lemma NotAlwaysRestorable()
    ensures !Restorable(6, 6, 0, 12)
  {}

  // Otherwise the last visible pixel is taken from behind the saved ones.
  lemma NotRestored(sx: int, sy: int, px: int, py: int)
    requires !Restorable(sx, sy, px, py)
    ensures exists v, saved0, saved ::
      SavedFrom(Clip(sx, sy, px, py), v, saved0, saved) && !PutsBack(Clip(sx, sy, px, py), px, py, v, saved)
  {
    var c := Clip(sx, sy, px, py);
    var black := (x: int, y: int) => 0 as bv8;
    var saved0: Picture := seq(144, _ => 1);
    var saved: Picture := seq(144, i => if i < c.Count() then 0 else 1);
    var x, y := c.x0 + c.w - 1, c.y0 + c.h - 1;
    assert c.Has(x, y);
    RowsOrder(c.w, 0, c.h - 1);
    if c.w < BLOCK_X_DIM { ShortRows(c.w, c.h - 1); }
    assert saved[BlockIndex(px, py, x, y)] == 1;
    forall a, b | c.Has(a, b)
      ensures SavedAt(c, saved, a, b, black(a, b))
    {
      NthOrder(c, a, b, a, b);
    }
    assert SavedFrom(c, black, saved0, saved) && !PutsBack(c, px, py, black, saved);
  }

  predicate Overlaid(mask: Picture, px: int, py: int, x: int, y: int) {
    InBlock(px, py, x, y) && mask[BlockIndex(px, py, x, y)] == 1
  }

  // In a restorable block the picture, its mask and the saved pixels agree on
  // which index a pixel has.
  lemma RestorableMask(sx: int, sy: int, px: int, py: int, x: int, y: int, mask: Picture, saved: Picture, v: bv8)
    requires Restorable(sx, sy, px, py) && InWindow(sx, sy, x, y) && InBlock(px, py, x, y)
    ensures Masked(Clip(sx, sy, px, py), mask, x, y) <==> mask[BlockIndex(px, py, x, y)] == 1
    ensures SavedAt(Clip(sx, sy, px, py), saved, x, y, v) ==> saved[BlockIndex(px, py, x, y)] == v
  {
    RestorableIndex(sx, sy, px, py, x, y);
  }

  lemma BlockByteAt(off: int, sx: int, sy: int, px: int, py: int, i: int) returns (x: int, y: int)
    requires i in BlockBytes(off, sx, sy, px, py)
    ensures InBlock(px, py, x, y) && InWindow(sx, sy, x, y) && i == MEM_FENCE_WIDTH + off + Off(x, y)
  {
    x, y :| px <= x < px + BLOCK_X_DIM && py <= y < py + BLOCK_Y_DIM && InWindow(sx, sy, x, y)
      && i == MEM_FENCE_WIDTH + off + Off(x, y);
  }
}
