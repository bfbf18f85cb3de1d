// The build buffer and the video memory of modex.c.
module DisplayModule {
  import opened Pixels

  const VIDEO_PLANE := 65536
  const STATUS_BAR := 1440       // bytes a plane, at the start of video memory
  const PAGE_BIT := 0x4000
  const MEM_FENCE_MAGIC: bv8 := 0xF3
  const COPY_SIZE := 16000       // bytes copy_image writes to each plane

  class Display {
    const build: array<bv8>     // with a fence of MEM_FENCE_WIDTH bytes on each side
    var img3Off: int             // offset of the upper left pixel
    var showX: int
    var showY: int
    const video: array2<bv8>    // one row a plane
    var targetImg: int           // the page being displayed

    ghost predicate Valid()
      reads this
    {
      && build.Length == BUILD_BUF_SIZE + 2 * MEM_FENCE_WIDTH
      && video.Length0 == 4 && video.Length1 == VIDEO_PLANE
      && Fits(img3Off, showX, showY)
      && (targetImg == STATUS_BAR || targetImg == STATUS_BAR + PAGE_BIT)
    }

    ghost predicate Sees(x: int, y: int)
      reads this
    {
      InWindow(showX, showY, x, y)
    }

    function Addr(x: int, y: int): int
      reads this
    {
      MEM_FENCE_WIDTH + img3Off + Off(x, y)
    }

    predicate InFence(i: int) {
      i < MEM_FENCE_WIDTH || MEM_FENCE_WIDTH + BUILD_BUF_SIZE <= i
    }

    // The pixel the view shows at (x,y).
    ghost function Pix(x: int, y: int): bv8
      requires Valid() && Sees(x, y)
      reads this, build
    {
      InBuffer(img3Off, showX, showY, x, y);
      build[Addr(x, y)]
    }

    // set_mode_X: the view at (0,0), the fence in place.
    constructor ()
      ensures Valid() && showX == 0 && showY == 0 && fresh(build) && fresh(video)
      ensures img3Off == BUILD_BASE_INIT && img3Off == BUILD_BUF_SIZE - SCREEN_SIZE - img3Off
      ensures forall i :: 0 <= i < build.Length && InFence(i) ==> build[i] == MEM_FENCE_MAGIC
    {
      build := new bv8[BUILD_BUF_SIZE + 2 * MEM_FENCE_WIDTH](
        i => if i < MEM_FENCE_WIDTH || MEM_FENCE_WIDTH + BUILD_BUF_SIZE <= i then MEM_FENCE_MAGIC else 0);
      video := new bv8[4, VIDEO_PLANE]((_, _) => 0);
      showX, showY := 0, 0;
      img3Off := BUILD_BASE_INIT;
      targetImg := STATUS_BAR;
    }

    // The two copy loops of set_view_window.  The stretches may overlap, so the
    // copy runs backwards exactly when the target lies after the source.
    method MoveBytes(start: int, target: int, length: int)
      requires 0 <= start && start + length <= build.Length && 0 <= target && target + length <= build.Length
      requires length >= 0
      modifies build
      ensures forall k :: target <= k < target + length ==> build[k] == old(build[k - target + start])
      ensures forall i :: 0 <= i < build.Length && !(target <= i < target + length) ==> build[i] == old(build[i])
    {
      if start < target {
        var i := length;
        while i > 0
          invariant 0 <= i <= length
          invariant forall k :: target + i <= k < target + length ==> build[k] == old(build[k - target + start])
          invariant forall j :: 0 <= j < build.Length && !(target + i <= j < target + length) ==>
            build[j] == old(build[j])
        {
          i := i - 1;
          build[target + i] := build[start + i];
        }
      } else {
        var i := 0;
        while i < length
          invariant 0 <= i <= length
          invariant forall k :: target <= k < target + i ==> build[k] == old(build[k - target + start])
          invariant forall j :: 0 <= j < build.Length && !(target <= j < target + i) ==> build[j] == old(build[j])
        {
          build[target + i] := build[start + i];
          i := i + 1;
        }
      }
    }

    // Moves the view.  Every pixel that was visible and still is keeps its value;
    // the fence is not touched.
    method SetViewWindow(scrX: int, scrY: int)
      requires Valid()
      modifies `img3Off, `showX, `showY, build
      ensures Valid() && showX == scrX && showY == scrY
      ensures forall x, y :: Sees(x, y) && InWindow(old(showX), old(showY), x, y) ==> Pix(x, y) == old(Pix(x, y))
      ensures forall i :: 0 <= i < build.Length && InFence(i) ==> build[i] == old(build[i])
    {
      var oldX, oldY := showX, showY;
      showX := scrX;
      showY := scrY;
      var first := scrX / 4 + scrY * SCROLL_X_WIDTH;
      var last := 3 * SCROLL_SIZE + (scrX + SCROLL_X_DIM - 1) / 4 + (scrY + SCROLL_Y_DIM - 1) * SCROLL_X_WIDTH;
      if img3Off + first >= 0 && img3Off + last < BUILD_BUF_SIZE {
        return;
      }
      if scrX <= oldX - SCROLL_X_DIM || scrX >= oldX + SCROLL_X_DIM
        || scrY <= oldY - SCROLL_Y_DIM || scrY >= oldY + SCROLL_Y_DIM {
        img3Off := BUILD_BASE_INIT - scrX / 4 - scrY * SCROLL_X_WIDTH;
        return;
      }
      Recentre(oldX, oldY);
    }

    // The last part of set_view_window: the view and the place it had before overlap,
    // and everything between the corners of the overlap is moved with the image to
    // the middle of the buffer.
    method Recentre(oldX: int, oldY: int)
      requires build.Length == BUILD_BUF_SIZE + 2 * MEM_FENCE_WIDTH && Fits(img3Off, oldX, oldY)
      requires oldX - SCROLL_X_DIM < showX < oldX + SCROLL_X_DIM && oldY - SCROLL_Y_DIM < showY < oldY + SCROLL_Y_DIM
      modifies `img3Off, build
      ensures Fits(img3Off, showX, showY)
      ensures forall x, y :: Sees(x, y) && InWindow(oldX, oldY, x, y) ==>
        0 <= old(Addr(x, y)) < build.Length && 0 <= Addr(x, y) < build.Length
          && build[Addr(x, y)] == old(build[Addr(x, y)])
      ensures forall i :: 0 <= i < build.Length && InFence(i) ==> build[i] == old(build[i])
    {
      hide Off, Fits;
      var startX, endX, startY, endY;
      if showX > oldX { startX, endX := showX, oldX; } else { startX, endX := oldX, showX; }
      endX := endX + SCROLL_X_DIM - 1;
      if showY > oldY { startY, endY := showY, oldY; } else { startY, endY := oldY, showY; }
      endY := endY + SCROLL_Y_DIM - 1;
      var startOff := startX / 4 + startY * SCROLL_X_WIDTH;
      var startAddr := MEM_FENCE_WIDTH + img3Off + startOff;
      var length := endX / 4 + endY * SCROLL_X_WIDTH + 1 - startOff + 3 * SCROLL_SIZE;
      CopiedStretch(img3Off, oldX, oldY, startX, startY, endX, endY);
      img3Off := BUILD_BASE_INIT - showX / 4 - showY * SCROLL_X_WIDTH;
      MiddleFits(showX, showY);
      CopiedStretch(img3Off, showX, showY, startX, startY, endX, endY);
      var targetAddr := MEM_FENCE_WIDTH + img3Off + startOff;
      MoveBytes(startAddr, targetAddr, length);
      forall x, y | Sees(x, y) && InWindow(oldX, oldY, x, y)
        ensures 0 <= old(Addr(x, y)) < build.Length && 0 <= Addr(x, y) < build.Length
          && build[Addr(x, y)] == old(build[Addr(x, y)])
      {
        assert 0 <= Off(x, y) - startOff < length;
        assert targetAddr <= Addr(x, y) < targetAddr + length;
      }
    }

    // One store of one of the drawing loops, through a pointer to pixel (x,y).
    method Poke(addr: int, v: bv8, ghost x: int, ghost y: int)
      requires Valid() && Sees(x, y) && addr == Addr(x, y)
      modifies build
      ensures forall a, b :: Sees(a, b) ==> Pix(a, b) == if a == x && b == y then v else old(Pix(a, b))
      ensures forall i :: 0 <= i < build.Length && i != addr ==> build[i] == old(build[i])
    {
      InBuffer(img3Off, showX, showY, x, y);
      forall a, b | Sees(a, b) && Off(a, b) == Off(x, y)
        ensures a == x && b == y
      {
        OffInjective(showX, showY, a, b, x, y);
      }
      build[addr] := v;
    }

    ghost function Block(px: int, py: int): set<int>
      reads this
    {
      BlockBytes(img3Off, showX, showY, px, py)
    }

    // Draws a block, clipped to the view: the visible pixels of the block get its
    // values, and no other byte of the buffer changes.
    method DrawFullBlock(px: int, py: int, blk: Picture)
      requires Valid()
      modifies build
      ensures forall x, y :: Sees(x, y) ==>
        Pix(x, y) == if InBlock(px, py, x, y) then blk[BlockIndex(px, py, x, y)] else old(Pix(x, y))
      ensures forall i :: 0 <= i < build.Length && i !in Block(px, py) ==> build[i] == old(build[i])
    {
      if px + BLOCK_X_DIM <= showX || px >= showX + SCROLL_X_DIM
        || py + BLOCK_Y_DIM <= showY || py >= showY + SCROLL_Y_DIM {
        return;
      }
      var posX, posY, b := px, py, 0;
      var xLeft := showX - posX;
      if xLeft < 0 { xLeft := 0; }
      var xRight := showX + SCROLL_X_DIM - posX;
      if xRight > BLOCK_X_DIM { xRight := BLOCK_X_DIM; }
      posX := posX + xLeft;
      b := b + xLeft;
      ghost var x0 := posX;
      xRight := xRight - xLeft;
      xLeft := BLOCK_X_DIM - xRight;
      var yTop := showY - posY;
      if yTop < 0 { yTop := 0; }
      var yBottom := showY + SCROLL_Y_DIM - posY;
      if yBottom > BLOCK_Y_DIM { yBottom := BLOCK_Y_DIM; }
      posY := posY + yTop;
      ghost var y0 := posY;
      b := b + yTop * BLOCK_X_DIM;
      yBottom := yBottom - yTop;
      hide BlockBytes;
      var dy := 0;
      while dy < yBottom
        invariant 0 <= dy <= yBottom && posY == y0 + dy && posX == x0
        invariant b == BlockIndex(px, py, x0, posY)
        invariant forall x, y :: Sees(x, y) ==>
          Pix(x, y) == if InBlock(px, py, x, y) && y < posY then blk[BlockIndex(px, py, x, y)] else old(Pix(x, y))
        invariant forall i :: 0 <= i < build.Length && i !in Block(px, py) ==> build[i] == old(build[i])
      {
        FullRow(px, py, posX, posY, xRight, b, blk);
        b := b + xRight + xLeft;
        dy := dy + 1;
        posY := posY + 1;
      }
    }

    // One visible row of draw_full_block, from (posX,posY): w pixels of the picture,
    // from index b.
    method FullRow(px: int, py: int, posX: int, posY: int, w: int, b: int, blk: Picture)
      requires Valid() && 0 <= w && 0 <= b && b + w <= |blk|
      requires forall x :: posX <= x < posX + w ==> Sees(x, posY) && InBlock(px, py, x, posY)
      modifies build
      ensures forall x, y :: Sees(x, y) ==>
        Pix(x, y) == if y == posY && posX <= x < posX + w then blk[b + x - posX] else old(Pix(x, y))
      ensures forall i :: 0 <= i < build.Length && i !in Block(px, py) ==> build[i] == old(build[i])
    {
      var dx := 0;
      while dx < w
        invariant 0 <= dx <= w
        invariant forall x, y :: Sees(x, y) ==>
          Pix(x, y) == if y == posY && posX <= x < posX + dx then blk[b + x - posX] else old(Pix(x, y))
        invariant forall i :: 0 <= i < build.Length && i !in Block(px, py) ==> build[i] == old(build[i])
      {
        var x := posX + dx;
        assert old(Sees(x, posY));
        var addr := MEM_FENCE_WIDTH + img3Off + x / 4 + posY * SCROLL_X_WIDTH + (3 - x % 4) * SCROLL_SIZE;
        assert addr in Block(px, py) by { assert addr == Addr(x, posY); }
        Poke(addr, blk[b + dx], x, posY);
        dx := dx + 1;
      }
    }

    // One visible row of draw_mask_block, from (posX,posY): w pixels, taking the
    // picture from index b and the mask and the saved pixels from index n.
    method MaskRow(px: int, py: int, posX: int, posY: int, w: int, b: int, n: int,
                   blk: Picture, mask: Picture, saved0: Picture) returns (saved: Picture)
      requires Valid() && 0 <= n && n + w <= |mask| && 0 <= b && b + w <= |blk| && 0 <= w
      requires forall x :: posX <= x < posX + w ==> Sees(x, posY) && InBlock(px, py, x, posY)
      modifies build
      ensures forall x, y :: Sees(x, y) ==>
        Pix(x, y) == if y == posY && posX <= x < posX + w && mask[n + x - posX] == 1 then blk[b + x - posX]
          else old(Pix(x, y))
      ensures forall i :: n <= i < n + w ==> saved[i] == old(Pix(posX + i - n, posY))
      ensures forall i :: 0 <= i < |saved| && !(n <= i < n + w) ==> saved[i] == saved0[i]
      ensures forall i :: 0 <= i < build.Length && i !in Block(px, py) ==> build[i] == old(build[i])
    {
      saved := saved0;
      var dx := 0;
      while dx < w
        invariant 0 <= dx <= w
        invariant forall x, y :: Sees(x, y) ==>
          Pix(x, y) == if y == posY && posX <= x < posX + dx && mask[n + x - posX] == 1 then blk[b + x - posX]
            else old(Pix(x, y))
        invariant forall i :: n <= i < n + dx ==> saved[i] == old(Pix(posX + i - n, posY))
        invariant forall i :: 0 <= i < |saved| && !(n <= i < n + dx) ==> saved[i] == saved0[i]
        invariant forall i :: 0 <= i < build.Length && i !in Block(px, py) ==> build[i] == old(build[i])
      {
        var x := posX + dx;
        assert old(Sees(x, posY));
        InBuffer(img3Off, showX, showY, x, posY);
        var addr := MEM_FENCE_WIDTH + img3Off + x / 4 + posY * SCROLL_X_WIDTH + (3 - x % 4) * SCROLL_SIZE;
        assert addr in Block(px, py) by { assert addr == Addr(x, posY); }
        assert build[addr] == Pix(x, posY);
        saved := saved[n + dx := build[addr]];
        if mask[n + dx] == 1 {
          Poke(addr, blk[b + dx], x, posY);
        }
        dx := dx + 1;
      }
    }

    // Row dy of the visible part c of the block.
    method MaskOneRow(px: int, py: int, c: Clipped, dy: int, b: int, blk: Picture, mask: Picture, saved0: Picture)
      returns (saved: Picture)
      requires Valid() && c == Clip(showX, showY, px, py) && 0 <= dy < c.h && c.w > 0
      requires b == BlockIndex(px, py, c.x0, c.y0 + dy)
      modifies build
      ensures forall x, y :: Sees(x, y) ==>
        Pix(x, y) == if c.Has(x, y) && y == c.y0 + dy && Masked(c, mask, x, y) then blk[BlockIndex(px, py, x, y)]
          else old(Pix(x, y))
      ensures forall x, y, v :: c.Has(x, y) && y < c.y0 + dy && SavedAt(c, saved0, x, y, v) ==>
        SavedAt(c, saved, x, y, v)
      ensures forall x, y :: c.Has(x, y) && y == c.y0 + dy ==> SavedAt(c, saved, x, y, old(Pix(x, y)))
      ensures forall i :: 0 <= i < |saved| && Rows(c.w, dy + 1) <= i ==> saved[i] == saved0[i]
      ensures forall i :: 0 <= i < build.Length && i !in Block(px, py) ==> build[i] == old(build[i])
    {
      hide Masked, SavedAt, Clip, BlockBytes;
      var posY, n := c.y0 + dy, Rows(c.w, dy);
      RowFits(c, dy);
      RowVisible(showX, showY, px, py, posY);
      saved := MaskRow(px, py, c.x0, posY, c.w, b, n, blk, mask, saved0);
      forall x, y, v | c.Has(x, y) && y < posY && SavedAt(c, saved0, x, y, v)
        ensures SavedAt(c, saved, x, y, v)
      {
        SavedRow(c, dy, x, y, mask, saved0, saved, v);
      }
      forall x, y | c.Has(x, y) && y == posY
        ensures SavedAt(c, saved, x, y, old(Pix(x, y)))
        ensures Masked(c, mask, x, y) <==> mask[n + x - c.x0] == 1
      {
        SavedRow(c, dy, x, y, mask, saved0, saved, old(Pix(x, y)));
      }
    }

    // The drawing loop of draw_mask_block over the visible part c of the block.
    method MaskRows(px: int, py: int, c: Clipped, b0: int, blk: Picture, mask: Picture, saved0: Picture)
        returns (saved: Picture)
      requires Valid() && c == Clip(showX, showY, px, py)
      requires c.h > 0 ==> c.w > 0 && b0 == BlockIndex(px, py, c.x0, c.y0)
      modifies build
      ensures forall x, y :: Sees(x, y) ==>
        Pix(x, y) == if c.Has(x, y) && Masked(c, mask, x, y) then blk[BlockIndex(px, py, x, y)] else old(Pix(x, y))
      ensures forall x, y :: c.Has(x, y) ==> SavedAt(c, saved, x, y, old(Pix(x, y)))
      ensures forall i :: 0 <= i < |saved| && c.Count() <= i ==> saved[i] == saved0[i]
      ensures forall i :: 0 <= i < build.Length && i !in Block(px, py) ==> build[i] == old(build[i])
    {
      saved := saved0;
      var posY, b := c.y0, b0;
      var dy := 0;
      hide Masked, SavedAt, Clip, BlockBytes;
      while dy < c.h
        invariant 0 <= dy <= c.h && posY == c.y0 + dy
        invariant c.h > 0 ==> b == BlockIndex(px, py, c.x0, posY)
        invariant forall x, y :: Sees(x, y) ==>
          Pix(x, y) == if c.Has(x, y) && y < posY && Masked(c, mask, x, y) then blk[BlockIndex(px, py, x, y)]
            else old(Pix(x, y))
        invariant forall x, y :: c.Has(x, y) && y < posY ==> SavedAt(c, saved, x, y, old(Pix(x, y)))
        invariant forall i :: 0 <= i < |saved| && Rows(c.w, dy) <= i ==> saved[i] == saved0[i]
        invariant forall i :: 0 <= i < build.Length && i !in Block(px, py) ==> build[i] == old(build[i])
      {
        saved := MaskOneRow(px, py, c, dy, b, blk, mask, saved);
        // over the visible pixels of the row, then to the next row of the picture
        b := b + c.w + (BLOCK_X_DIM - c.w);
        dy := dy + 1;
        posY := posY + 1;
      }
    }

    // The player's pixels go where the mask says; what was there is saved.  Unlike
    // the picture, the mask and the saved pixels are not skipped where the block
    // is clipped: they are indexed by the number of visible pixels drawn so far.
    method DrawMaskBlock(px: int, py: int, blk: Picture, mask: Picture, saved0: Picture) returns (saved: Picture)
      requires Valid()
      modifies build
      ensures var c := Clip(showX, showY, px, py);
        forall x, y :: Sees(x, y) ==>
          Pix(x, y) == if c.Has(x, y) && Masked(c, mask, x, y) then blk[BlockIndex(px, py, x, y)] else old(Pix(x, y))
      ensures var c := Clip(showX, showY, px, py);
        forall x, y :: c.Has(x, y) ==> SavedAt(c, saved, x, y, old(Pix(x, y)))
      ensures var c := Clip(showX, showY, px, py);
        forall i :: 0 <= i < |saved| && c.Count() <= i ==> saved[i] == saved0[i]
      ensures forall i :: 0 <= i < build.Length && i !in Block(px, py) ==> build[i] == old(build[i])
    {
      hide Masked, SavedAt;
      if px + BLOCK_X_DIM <= showX || px >= showX + SCROLL_X_DIM
        || py + BLOCK_Y_DIM <= showY || py >= showY + SCROLL_Y_DIM {
        return saved0;
      }
      var posX, posY, b := px, py, 0;
      var xLeft := showX - posX;
      if xLeft < 0 { xLeft := 0; }
      var xRight := showX + SCROLL_X_DIM - posX;
      if xRight > BLOCK_X_DIM { xRight := BLOCK_X_DIM; }
      posX := posX + xLeft;
      b := b + xLeft;
      xRight := xRight - xLeft;
      var yTop := showY - posY;
      if yTop < 0 { yTop := 0; }
      var yBottom := showY + SCROLL_Y_DIM - posY;
      if yBottom > BLOCK_Y_DIM { yBottom := BLOCK_Y_DIM; }
      posY := posY + yTop;
      b := b + yTop * BLOCK_X_DIM;
      yBottom := yBottom - yTop;
      assert Clip(showX, showY, px, py) == Clipped(posX, posY, xRight, yBottom);
      saved := MaskRows(px, py, Clipped(posX, posY, xRight, yBottom), b, blk, mask, saved0);
    }

    // The drawing loop of draw_horiz_line: the pixels of row y, one plane down and
    // every fourth time one byte on.
    method CopyHorizLine(y: int, buf: seq<bv8>)
      requires Valid() && showY <= y < showY + SCROLL_Y_DIM && |buf| == SCROLL_X_DIM
      modifies build
      ensures forall a, b :: Sees(a, b) ==> Pix(a, b) == if b == y then buf[a - showX] else old(Pix(a, b))
      ensures forall i :: 0 <= i < build.Length && InFence(i) ==> build[i] == old(build[i])
    {
      var addr := MEM_FENCE_WIDTH + img3Off + showX / 4 + y * SCROLL_X_WIDTH;
      var pOff := 3 - showX % 4;
      var i := 0;
      while i < SCROLL_X_DIM
        invariant 0 <= i <= SCROLL_X_DIM && pOff == 3 - (showX + i) % 4
        invariant addr == MEM_FENCE_WIDTH + img3Off + (showX + i) / 4 + y * SCROLL_X_WIDTH
        invariant forall a, b :: Sees(a, b) ==>
          Pix(a, b) == if b == y && a < showX + i then buf[a - showX] else old(Pix(a, b))
        invariant forall j :: 0 <= j < build.Length && InFence(j) ==> build[j] == old(build[j])
      {
        assert addr + pOff * SCROLL_SIZE == Addr(showX + i, y);
        Poke(addr + pOff * SCROLL_SIZE, buf[i], showX + i, y);
        pOff := pOff - 1;
        if pOff < 0 {
          pOff := 3;
          addr := addr + 1;
        }
        i := i + 1;
      }
    }

    // The drawing loop of draw_vert_line: column x stays in one plane.
    method CopyVertLine(x: int, buf: seq<bv8>)
      requires Valid() && showX <= x < showX + SCROLL_X_DIM && |buf| == SCROLL_Y_DIM
      modifies build
      ensures forall a, b :: Sees(a, b) ==> Pix(a, b) == if a == x then buf[b - showY] else old(Pix(a, b))
      ensures forall i :: 0 <= i < build.Length && InFence(i) ==> build[i] == old(build[i])
    {
      var addr := MEM_FENCE_WIDTH + img3Off + x / 4 + showY * SCROLL_X_WIDTH;
      var pOff := 3 - x % 4;
      var i := 0;
      while i < SCROLL_Y_DIM
        invariant 0 <= i <= SCROLL_Y_DIM
        invariant addr == MEM_FENCE_WIDTH + img3Off + x / 4 + (showY + i) * SCROLL_X_WIDTH
        invariant forall a, b :: Sees(a, b) ==>
          Pix(a, b) == if a == x && b < showY + i then buf[b - showY] else old(Pix(a, b))
        invariant forall j :: 0 <= j < build.Length && InFence(j) ==> build[j] == old(build[j])
      {
        InBuffer(img3Off, showX, showY, x, showY + i);
        Poke(addr + pOff * SCROLL_SIZE, buf[i], x, showY + i);
        addr := addr + SCROLL_X_WIDTH;
        i := i + 1;
      }
    }

    // ----- the screen -----

    // Where in the buffer the image for display plane i starts.
    ghost function PlaneStart(i: int): (k: int)
      requires Valid() && 0 <= i < 4
      reads this
      ensures 0 <= k && k + SCROLL_SIZE <= build.Length
    {
      PlaneInBuffer(img3Off, showX, showY, i);
      MEM_FENCE_WIDTH + img3Off + PlaneOff(showX, showY, i)
    }

    // What the monitor shows dx pixels right of and dy below its corner.
    ghost function Shown(dx: int, dy: int): bv8
      requires Valid() && 0 <= dx < SCROLL_X_DIM && 0 <= dy < SCROLL_Y_DIM
      reads this, video
    {
      video[dx % 4, targetImg + dy * SCROLL_X_WIDTH + dx / 4]
    }

    predicate InCopy(written: bool, i: int, scrAddr: int) {
      written && scrAddr <= i < scrAddr + COPY_SIZE
    }

    // copy_image for one plane.  It copies 16000 bytes, 200 rows, of which 182 are
    // displayed; the last rows are what lies behind the image in the buffer and,
    // where the buffer ends, arbitrary.
    method CopyImage(plane: int, img: int, scrAddr: int)
      requires video.Length0 == 4 && video.Length1 == VIDEO_PLANE && 0 <= plane < 4
      requires 0 <= img && img + SCROLL_SIZE <= build.Length && 0 <= scrAddr && scrAddr + COPY_SIZE <= VIDEO_PLANE
      modifies video
      ensures forall i :: scrAddr <= i < scrAddr + COPY_SIZE && img + i - scrAddr < build.Length ==>
        video[plane, i] == build[img + i - scrAddr]
      ensures forall p, i :: 0 <= p < 4 && 0 <= i < VIDEO_PLANE && !InCopy(p == plane, i, scrAddr) ==>
        video[p, i] == old(video[p, i])
    {
      var k := 0;
      while k < COPY_SIZE
        invariant 0 <= k <= COPY_SIZE
        invariant forall i :: scrAddr <= i < scrAddr + k && img + i - scrAddr < build.Length ==>
          video[plane, i] == build[img + i - scrAddr]
        invariant forall p, i :: 0 <= p < 4 && 0 <= i < VIDEO_PLANE && !InCopy(p == plane, i, scrAddr) ==>
          video[p, i] == old(video[p, i])
      {
        var v: bv8 := *;
        video[plane, scrAddr + k] := if img + k < build.Length then build[img + k] else v;
        k := k + 1;
      }
    }

    lemma PlaneAddress(i: int)
      requires Valid() && 0 <= i < 4
      ensures var p := 3 - showX % 4;
        PlaneStart(i) == MEM_FENCE_WIDTH + img3Off + showX / 4 + showY * SCROLL_X_WIDTH
          + ((p - i + 4) % 4) * SCROLL_SIZE + (if p < i then 1 else 0)
    {}

    lemma ShownIsPix(dx: int, dy: int)
      requires Valid() && 0 <= dx < SCROLL_X_DIM && 0 <= dy < SCROLL_Y_DIM
      requires forall k :: targetImg <= k < targetImg + SCROLL_SIZE ==>
        video[dx % 4, k] == build[PlaneStart(dx % 4) + k - targetImg]
      ensures Shown(dx, dy) == Pix(showX + dx, showY + dy)
    {
      PlanePixel(img3Off, showX, showY, dx, dy);
      hide Off, PlaneOff;
      assert targetImg <= targetImg + dy * SCROLL_X_WIDTH + dx / 4 < targetImg + SCROLL_SIZE;
    }

    // Copies the view to the page that is not displayed and displays it.  The page
    // that was displayed and the status bar are not written.
    method ShowScreen()
      requires Valid()
      modifies `targetImg, video
      ensures Valid() && targetImg != old(targetImg)
      ensures forall dx, dy :: 0 <= dx < SCROLL_X_DIM && 0 <= dy < SCROLL_Y_DIM ==>
        Shown(dx, dy) == Pix(showX + dx, showY + dy)
      ensures forall p, i :: 0 <= p < 4 && 0 <= i < STATUS_BAR ==> video[p, i] == old(video[p, i])
      ensures forall p, i :: 0 <= p < 4 && old(targetImg) <= i < old(targetImg) + COPY_SIZE ==>
        video[p, i] == old(video[p, i])
    {
      hide PlaneStart, Shown, Off;
      var pOff := 3 - showX % 4;
      // target_img ^= 0x4000
      targetImg := if (targetImg / PAGE_BIT) % 2 == 1 then targetImg - PAGE_BIT else targetImg + PAGE_BIT;
      ghost var target := targetImg;
      var addr := MEM_FENCE_WIDTH + img3Off + showX / 4 + showY * SCROLL_X_WIDTH;
      var i := 0;
      while i < 4
        invariant 0 <= i <= 4 && Valid() && targetImg == target
        invariant forall p, k :: 0 <= p < 4 && 0 <= k < VIDEO_PLANE && !InCopy(p < i, k, target) ==>
          video[p, k] == old(video[p, k])
        invariant forall p, k :: 0 <= p < i && target <= k < target + SCROLL_SIZE ==>
          video[p, k] == build[PlaneStart(p) + k - target]
      {
        PlaneAddress(i);
        CopyImage(i, addr + ((pOff - i + 4) % 4) * SCROLL_SIZE + (if pOff < i then 1 else 0), targetImg);
        i := i + 1;
      }
      forall dx, dy | 0 <= dx < SCROLL_X_DIM && 0 <= dy < SCROLL_Y_DIM
        ensures Shown(dx, dy) == Pix(showX + dx, showY + dy)
      {
        ShownIsPix(dx, dy);
      }
    }

    // draw_mask_block, show_screen, draw_full_block, as the game calls them: the
    // screen shows the picture over the view, and the buffer is as before.
    method ShowOver(px: int, py: int, blk: Picture, mask: Picture, saved0: Picture) returns (saved: Picture)
      requires Valid() && Restorable(showX, showY, px, py)
      modifies `targetImg, build, video
      ensures Valid() && build[..] == old(build[..]) && forall x, y :: Sees(x, y) ==> Pix(x, y) == old(Pix(x, y))
      ensures forall dx, dy :: 0 <= dx < SCROLL_X_DIM && 0 <= dy < SCROLL_Y_DIM ==>
        Shown(dx, dy) ==
          if Overlaid(mask, px, py, showX + dx, showY + dy) then blk[BlockIndex(px, py, showX + dx, showY + dy)]
          else Pix(showX + dx, showY + dy)
      ensures forall p, i :: 0 <= p < 4 && 0 <= i < STATUS_BAR ==> video[p, i] == old(video[p, i])
      ensures forall p, i :: 0 <= p < 4 && old(targetImg) <= i < old(targetImg) + COPY_SIZE ==>
        video[p, i] == old(video[p, i])
    {
      hide Clip, SavedAt, Masked, Restorable, BlockBytes;
      ghost var c := Clip(showX, showY, px, py);
      saved := DrawMaskBlock(px, py, blk, mask, saved0);
      forall x, y | Sees(x, y) && InBlock(px, py, x, y)
        ensures saved[BlockIndex(px, py, x, y)] == old(Pix(x, y))
        ensures Masked(c, mask, x, y) <==> mask[BlockIndex(px, py, x, y)] == 1
      {
        assert old(Sees(x, y));
        RestorableMask(showX, showY, px, py, x, y, mask, saved, old(Pix(x, y)));
      }
      ShowScreen();
      label drawn:
      DrawFullBlock(px, py, saved);
      forall x, y | Sees(x, y)
        ensures Pix(x, y) == old(Pix(x, y))
      {
        assert old(Sees(x, y)) && old@drawn(Sees(x, y));
      }
      forall i | 0 <= i < build.Length
        ensures build[i] == old(build[i])
      {
        if i in Block(px, py) {
          var x, y := BlockByteAt(img3Off, showX, showY, px, py, i);
          assert Sees(x, y) && old(Sees(x, y)) && i == Addr(x, y);
          assert build[i] == Pix(x, y) && old(build[i]) == old(Pix(x, y));
        }
      }
    }
  }
}
