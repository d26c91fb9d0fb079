/** The scaled framebuffer of the CHIP-8 display (src/chip8/gpu.rs): a
    W_CHIP8 x H_CHIP8 grid of logical pixels, each shown as a
    PIXEL_SIZE x PIXEL_SIZE block of a flat, row-major WIDTH x HEIGHT buffer
    of colours. */
module Gpu {

  /** Rust's `u32`, the type of a colour. */
  newtype u32 = x: int | 0 <= x < 0x1_0000_0000

  const W_CHIP8: nat := 64
  const H_CHIP8: nat := 32
  const PIXEL_SIZE: nat := 10

  const WIDTH: nat := W_CHIP8 * PIXEL_SIZE
  const HEIGHT: nat := H_CHIP8 * PIXEL_SIZE

  const BLACK: u32 := 0x00_00_00
  const WHITE: u32 := 0xff_ff_ff

  /** Position of column c of row r in the flat buffer. */
  function Index(c: nat, r: nat): nat { c + r * WIDTH }

  /** Does buffer index k lie in the rectangle of w columns starting at column
      x and h rows starting at row y? Columns at or past WIDTH run on into the
      following rows, as the flat index does. */
  predicate InRect(x: nat, w: nat, y: nat, h: nat, k: nat)
  {
    x <= k && (k - x) % WIDTH < w && y <= (k - x) / WIDTH < y + h
  }

  /** Does buffer index k lie in the block that draw_pixel fills for pos? */
  predicate InBlock(pos: (nat, nat), k: nat)
  {
    InRect(pos.0 * PIXEL_SIZE, PIXEL_SIZE, pos.1 * PIXEL_SIZE, PIXEL_SIZE, k)
  }

  /** The last (largest) index draw_pixel writes for pos lies below len, so
      none of its writes is out of bounds. */
  predicate Fits(pos: (nat, nat), len: nat)
  {
    Index(pos.0 * PIXEL_SIZE + PIXEL_SIZE - 1, pos.1 * PIXEL_SIZE + PIXEL_SIZE - 1) < len
  }

  /** A logical pixel of the CHIP-8 grid. */
  predicate OnGrid(pos: (nat, nat))
  {
    pos.0 < W_CHIP8 && pos.1 < H_CHIP8
  }

  /** The buffer s after filling pos's block with color. */
  function Drawn(s: seq<u32>, pos: (nat, nat), color: u32): seq<u32>
  {
    seq(|s|, k requires 0 <= k < |s| => if InBlock(pos, k) then color else s[k])
  }

  /** The buffer as created and as cleared. */
  function Blank(): seq<u32>
  {
    seq(WIDTH * HEIGHT, _ => BLACK)
  }

  // ---------------------------------------------------------------------
  // Index arithmetic

  /** Every cell (c, r) of a rectangle at most WIDTH wide is in it. */
  lemma RectIndex(x: nat, w: nat, y: nat, h: nat, c: nat, r: nat)
    requires w <= WIDTH
    requires x <= c < x + w && y <= r < y + h
    ensures InRect(x, w, y, h, Index(c, r))
  {
    var k := Index(c, r);
    assert k - x == (c - x) + r * WIDTH;
    assert (k - x) / WIDTH == r && (k - x) % WIDTH == c - x;
  }

  /** Every index in a rectangle is the index of one of its cells. */
  lemma RectCell(x: nat, w: nat, y: nat, h: nat, k: nat) returns (c: nat, r: nat)
    requires InRect(x, w, y, h, k)
    ensures x <= c < x + w && y <= r < y + h && k == Index(c, r)
  {
    c, r := x + (k - x) % WIDTH, (k - x) / WIDTH;
  }

  /** A one-column rectangle grows by one row by adding the cell below it. */
  lemma RectGrowRow(x: nat, y: nat, h: nat, k: nat)
    ensures InRect(x, 1, y, h + 1, k) <==> InRect(x, 1, y, h, k) || k == Index(x, y + h)
  {
    if k == Index(x, y + h) {
      RectIndex(x, 1, y, h + 1, x, y + h);
    }
  }

  /** A rectangle narrower than WIDTH grows by one column by adding the one-column
      rectangle to its right. */
  lemma RectGrowCol(x: nat, w: nat, y: nat, h: nat, k: nat)
    requires w < WIDTH
    ensures InRect(x, w + 1, y, h, k) <==> InRect(x, w, y, h, k) || InRect(x + w, 1, y, h, k)
  {
    if InRect(x, w + 1, y, h, k) {
      var c, r := RectCell(x, w + 1, y, h, k);
      if c < x + w {
        RectIndex(x, w, y, h, c, r);
      } else {
        RectIndex(x + w, 1, y, h, c, r);
      }
    }
    if InRect(x, w, y, h, k) {
      var c, r := RectCell(x, w, y, h, k);
      RectIndex(x, w + 1, y, h, c, r);
    }
    if InRect(x + w, 1, y, h, k) {
      var c, r := RectCell(x + w, 1, y, h, k);
      RectIndex(x, w + 1, y, h, c, r);
    }
  }

  // ---------------------------------------------------------------------
  // Bounds

  /** Fits is exactly "every index i + j * WIDTH that draw_pixel writes is below len". */
  lemma FitsIffInBounds(pos: (nat, nat), len: nat)
    ensures Fits(pos, len) <==>
      forall c, r ::
        (pos.0 * PIXEL_SIZE <= c < pos.0 * PIXEL_SIZE + PIXEL_SIZE &&
         pos.1 * PIXEL_SIZE <= r < pos.1 * PIXEL_SIZE + PIXEL_SIZE) ==> Index(c, r) < len
  {
    var cMax, rMax := pos.0 * PIXEL_SIZE + PIXEL_SIZE - 1, pos.1 * PIXEL_SIZE + PIXEL_SIZE - 1;
    if !Fits(pos, len) {
      assert !(Index(cMax, rMax) < len);
    }
  }

  /** Every logical pixel of the grid fits in a WIDTH x HEIGHT buffer. */
  lemma OnGridFits(pos: (nat, nat))
    requires OnGrid(pos)
    ensures Fits(pos, WIDTH * HEIGHT)
  {
  }

  /** A row at or below H_CHIP8 runs past the end of a WIDTH x HEIGHT buffer,
      whatever the column. */
  lemma RowOffGridOverflows(pos: (nat, nat))
    requires pos.1 >= H_CHIP8
    ensures !Fits(pos, WIDTH * HEIGHT)
  {
  }

  // ---------------------------------------------------------------------
  // Blocks

  /** The block of a logical pixel on the grid holds exactly the indices whose
      column and row, scaled down by PIXEL_SIZE, are that pixel. */
  lemma {:induction false} BlockCoordinates(pos: (nat, nat), k: nat)
    requires OnGrid(pos)
    ensures InBlock(pos, k) <==>
      (k % WIDTH) / PIXEL_SIZE == pos.0 && (k / WIDTH) / PIXEL_SIZE == pos.1
  {
    var x, y := pos.0 * PIXEL_SIZE, pos.1 * PIXEL_SIZE;
    if InBlock(pos, k) {
      var c, r := RectCell(x, PIXEL_SIZE, y, PIXEL_SIZE, k);
      assert c < WIDTH;
      assert k % WIDTH == c && k / WIDTH == r;
    }
    if (k % WIDTH) / PIXEL_SIZE == pos.0 && (k / WIDTH) / PIXEL_SIZE == pos.1 {
      var c, r := k % WIDTH, k / WIDTH;
      assert k == Index(c, r);
      RectIndex(x, PIXEL_SIZE, y, PIXEL_SIZE, c, r);
    }
  }

  /** Blocks of two different logical pixels of the grid share no index. */
  lemma BlocksDisjoint(p: (nat, nat), q: (nat, nat), k: nat)
    requires OnGrid(p) && OnGrid(q) && p != q
    ensures !(InBlock(p, k) && InBlock(q, k))
  {
    BlockCoordinates(p, k);
    BlockCoordinates(q, k);
  }

  /** Off the grid, blocks can overlap: the block of (W_CHIP8, 0) runs on into
      the rows of the block of (0, 1). */
  lemma OffGridBlocksOverlap()
    ensures Fits((W_CHIP8, 0), WIDTH * HEIGHT)
    ensures InBlock((W_CHIP8, 0), Index(0, 10)) && InBlock((0, 1), Index(0, 10))
  {
    RectIndex(W_CHIP8 * PIXEL_SIZE, PIXEL_SIZE, 0, PIXEL_SIZE, W_CHIP8 * PIXEL_SIZE, 9);
    RectIndex(0, PIXEL_SIZE, PIXEL_SIZE, PIXEL_SIZE, 0, 10);
  }

  // ---------------------------------------------------------------------
  // Drawing

  /** After drawing pos, every index i + j * WIDTH of its block holds the colour. */
  lemma DrawnCovers(s: seq<u32>, pos: (nat, nat), color: u32, c: nat, r: nat)
    requires Fits(pos, |s|)
    requires pos.0 * PIXEL_SIZE <= c < pos.0 * PIXEL_SIZE + PIXEL_SIZE
    requires pos.1 * PIXEL_SIZE <= r < pos.1 * PIXEL_SIZE + PIXEL_SIZE
    ensures Index(c, r) < |Drawn(s, pos, color)| == |s|
    ensures Drawn(s, pos, color)[Index(c, r)] == color
  {
    FitsIffInBounds(pos, |s|);
    RectIndex(pos.0 * PIXEL_SIZE, PIXEL_SIZE, pos.1 * PIXEL_SIZE, PIXEL_SIZE, c, r);
  }

  /** Drawing pos leaves every index that is no i + j * WIDTH of its block unchanged. */
  lemma DrawnFrame(s: seq<u32>, pos: (nat, nat), color: u32, k: nat)
    requires k < |s|
    requires forall c, r ::
      (pos.0 * PIXEL_SIZE <= c < pos.0 * PIXEL_SIZE + PIXEL_SIZE &&
       pos.1 * PIXEL_SIZE <= r < pos.1 * PIXEL_SIZE + PIXEL_SIZE) ==> Index(c, r) != k
    ensures Drawn(s, pos, color)[k] == s[k]
  {
    if InBlock(pos, k) {
      var c, r := RectCell(pos.0 * PIXEL_SIZE, PIXEL_SIZE, pos.1 * PIXEL_SIZE, PIXEL_SIZE, k);
      assert false;
    }
  }

  /** Drawing the same colour at the same position twice is drawing it once. */
  lemma DrawnIdempotent(s: seq<u32>, pos: (nat, nat), color: u32)
    ensures Drawn(Drawn(s, pos, color), pos, color) == Drawn(s, pos, color)
  {
  }

  /** Drawing one logical pixel of the grid leaves the block of every other one unchanged. */
  lemma DrawnKeepsOtherBlocks(s: seq<u32>, p: (nat, nat), color: u32, q: (nat, nat), k: nat)
    requires OnGrid(p) && OnGrid(q) && p != q
    requires k < |s| && InBlock(q, k)
    ensures Drawn(s, p, color)[k] == s[k]
  {
    BlocksDisjoint(p, q, k);
  }

  /** Drawing two different logical pixels of the grid gives the same buffer in
      either order. */
  lemma DrawnCommute(s: seq<u32>, p: (nat, nat), a: u32, q: (nat, nat), b: u32)
    requires OnGrid(p) && OnGrid(q) && p != q
    ensures Drawn(Drawn(s, p, a), q, b) == Drawn(Drawn(s, q, b), p, a)
  {
    forall k | 0 <= k < |s|
      ensures Drawn(Drawn(s, p, a), q, b)[k] == Drawn(Drawn(s, q, b), p, a)[k]
    {
      BlocksDisjoint(p, q, k);
    }
  }

  /** The framebuffer part of `GPU`; the window it presents to is not modelled. */
  class GPU {
    var buffer: array<u32>

    ghost predicate Valid()
      reads this
    {
      buffer.Length == WIDTH * HEIGHT
    }

    /** The buffer `GPU::new` creates: WIDTH x HEIGHT entries, all BLACK. */
    constructor ()
      ensures Valid() && fresh(buffer)
      ensures buffer[..] == Blank()
      ensures forall k :: 0 <= k < buffer.Length ==> buffer[k] == BLACK
    {
      buffer := new u32[WIDTH * HEIGHT](_ => BLACK);
    }

    /** `GPU::draw_pixel`: fill the block of logical pixel pos with color,
        column by column; every other entry, and the length, stay as they were. */
    method DrawPixel(pos: (nat, nat), color: u32)
      requires Fits(pos, buffer.Length)
      modifies buffer
      ensures buffer[..] == Drawn(old(buffer[..]), pos, color)
    {
      ghost var x0, y0 := pos.0 * PIXEL_SIZE, pos.1 * PIXEL_SIZE;
      var i := pos.0 * PIXEL_SIZE;
      while i < pos.0 * PIXEL_SIZE + PIXEL_SIZE
        invariant x0 <= i <= x0 + PIXEL_SIZE
        invariant forall k :: 0 <= k < buffer.Length ==>
          buffer[k] == if InRect(x0, i - x0, y0, PIXEL_SIZE, k) then color else old(buffer[k])
      {
        var j := pos.1 * PIXEL_SIZE;
        while j < pos.1 * PIXEL_SIZE + PIXEL_SIZE
          invariant y0 <= j <= y0 + PIXEL_SIZE
          invariant forall k :: 0 <= k < buffer.Length ==>
            buffer[k] == if InRect(x0, i - x0, y0, PIXEL_SIZE, k) || InRect(i, 1, y0, j - y0, k)
                         then color else old(buffer[k])
        {
          forall k {:trigger InRect(i, 1, y0, j - y0, k)} | 0 <= k < buffer.Length
            ensures InRect(i, 1, y0, j + 1 - y0, k) <==> InRect(i, 1, y0, j - y0, k) || k == Index(i, j)
          {
            RectGrowRow(i, y0, j - y0, k);
          }
          buffer[i + j * WIDTH] := color;
          j := j + 1;
        }
        forall k | 0 <= k < buffer.Length
          ensures InRect(x0, i + 1 - x0, y0, PIXEL_SIZE, k) <==>
                  InRect(x0, i - x0, y0, PIXEL_SIZE, k) || InRect(i, 1, y0, PIXEL_SIZE, k)
        {
          RectGrowCol(x0, i - x0, y0, PIXEL_SIZE, k);
        }
        i := i + 1;
      }
    }

    /** `GPU::clear_screen`: a new WIDTH x HEIGHT buffer, all BLACK, replaces the old one. */
    method ClearScreen()
      modifies this
      ensures Valid() && fresh(buffer)
      ensures buffer[..] == Blank()
      ensures forall k :: 0 <= k < buffer.Length ==> buffer[k] == BLACK
    {
      buffer := new u32[WIDTH * HEIGHT](_ => BLACK);
    }
  }
}
