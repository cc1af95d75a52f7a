/**
 * The 64x32 framebuffer (`m_renderData`, row-major, one bool per pixel) and the
 * effect of the sprite draw DXYN (c8e_CPU.cpp:210-241) stated in closed form.
 *
 * A sprite of N rows is drawn with its top-left cell at column `x0` and row `y0`
 * of the screen. Cell (r, c) lands on the flat index `(x0 + c) + (y0 + r) * 64`:
 * there is no clipping and no wrapping, so a cell past the right edge spills onto
 * the next row, exactly as the flat index in the source does.
 */
module Framebuffer {
  import opened Opcode

  const Width := 64
  const Height := 32
  const Size := Width * Height

  /** The cleared screen. */
  function Blank(): (fb: seq<bool>)
    ensures |fb| == Size
  {
    seq(Size, _ => false)
  }

  /** 2 to the power k. */
  function Pow2(k: nat): (r: nat)
    ensures r > 0
  {
    if k == 0 then 1 else 2 * Pow2(k - 1)
  }

  /** Whether column `col` of a sprite row is set; the most significant bit is column 0. */
  function SpriteBit(row: byte, col: nat): (b: bool)
    requires col < 8
    ensures col == 0 ==> (b <==> row >= 0x80)
    ensures col == 7 ==> (b <==> row % 2 == 1)
  {
    assert Pow2(7) == 0x80 by {
      assert Pow2(2) == 4 && Pow2(4) == 16 && Pow2(6) == 64;
    }
    row / Pow2(7 - col) % 2 == 1
  }

  /** The flat index of sprite cell (r, c) drawn from column x0 and row y0. */
  function PixelIndex(x0: nat, y0: nat, r: nat, c: nat): (p: nat)
    ensures x0 + c < Width ==> p / Width == y0 + r && p % Width == x0 + c
  {
    (x0 + c) + (y0 + r) * Width
  }

  /** Whether cell (r, c) of the sprite `rows` is set. */
  predicate CellSet(rows: seq<byte>, r: nat, c: nat)
  {
    r < |rows| && c < 8 && SpriteBit(rows[r], c)
  }

  /**
   * Whether pixel p is hit by one of the set cells that come before (row, col)
   * in the draw loop's row-major order. A pixel is hit by at most one cell
   * (`PixelIndexInjective`), whose coordinates are recovered by division.
   */
  predicate CoveredBefore(x0: nat, y0: nat, rows: seq<byte>, p: int, row: nat, col: nat)
  {
    var d := p - x0 - y0 * Width;
    d >= 0 && CellSet(rows, d / Width, d % Width) &&
    (d / Width < row || (d / Width == row && d % Width < col))
  }

  /** Whether pixel p is hit by some set cell of the sprite. */
  predicate Covers(x0: nat, y0: nat, rows: seq<byte>, p: int)
  {
    CoveredBefore(x0, y0, rows, p, |rows|, 0)
  }

  /** Every set cell of the sprite lands inside the framebuffer. */
  predicate Fits(x0: nat, y0: nat, rows: seq<byte>)
  {
    forall r: nat, c: nat :: r < |rows| && c < 8 && CellSet(rows, r, c) ==> PixelIndex(x0, y0, r, c) < Size
  }

  /** The framebuffer after XOR-drawing the sprite: each hit pixel is toggled. */
  function Draw(fb: seq<bool>, x0: nat, y0: nat, rows: seq<byte>): (r: seq<bool>)
    ensures |r| == |fb|
    ensures forall p :: 0 <= p < |fb| ==> (r[p] != fb[p] <==> Covers(x0, y0, rows, p))
  {
    seq(|fb|, p requires 0 <= p < |fb| => fb[p] != Covers(x0, y0, rows, p))
  }

  /** The draw's collision: some pixel it hits was on. */
  predicate Collides(fb: seq<bool>, x0: nat, y0: nat, rows: seq<byte>)
  {
    exists p :: 0 <= p < |fb| && Covers(x0, y0, rows, p) && fb[p]
  }

  // ---------------------------------------------------------------------------
  // Lemmas
  // ---------------------------------------------------------------------------

  /** A cell's flat index decodes back to the cell. */
  lemma {:induction false} PixelIndexDecodes(x0: nat, y0: nat, r: nat, c: nat)
    requires c < Width
    ensures var d := PixelIndex(x0, y0, r, c) - x0 - y0 * Width;
      d >= 0 && d / Width == r && d % Width == c
  {
    var d := PixelIndex(x0, y0, r, c) - x0 - y0 * Width;
    assert d == r * Width + c;
  }

  /** Two cells of a sprite never land on the same pixel. */
  lemma {:induction false} PixelIndexInjective(x0: nat, y0: nat, r1: nat, c1: nat, r2: nat, c2: nat)
    requires c1 < 8 && c2 < 8
    requires PixelIndex(x0, y0, r1, c1) == PixelIndex(x0, y0, r2, c2)
    ensures r1 == r2 && c1 == c2
  {
    PixelIndexDecodes(x0, y0, r1, c1);
    PixelIndexDecodes(x0, y0, r2, c2);
  }

  /** Pixel p is hit exactly when some set cell of the sprite lands on it. */
  lemma {:induction false} CoversIff(x0: nat, y0: nat, rows: seq<byte>, p: int)
    ensures Covers(x0, y0, rows, p) <==>
      exists r: nat, c: nat :: CellSet(rows, r, c) && PixelIndex(x0, y0, r, c) == p
  {
    if Covers(x0, y0, rows, p) {
      var d := p - x0 - y0 * Width;
      assert PixelIndex(x0, y0, d / Width, d % Width) == p;
    }
    if exists r: nat, c: nat :: CellSet(rows, r, c) && PixelIndex(x0, y0, r, c) == p {
      var r: nat, c: nat :| CellSet(rows, r, c) && PixelIndex(x0, y0, r, c) == p;
      PixelIndexDecodes(x0, y0, r, c);
    }
  }

  /**
   * The draw toggles the pixel of every set cell and leaves every pixel that no
   * set cell lands on unchanged.
   */
  lemma {:induction false} DrawToggles(fb: seq<bool>, x0: nat, y0: nat, rows: seq<byte>)
    ensures forall r: nat, c: nat :: CellSet(rows, r, c) && PixelIndex(x0, y0, r, c) < |fb| ==>
      Draw(fb, x0, y0, rows)[PixelIndex(x0, y0, r, c)] == !fb[PixelIndex(x0, y0, r, c)]
    ensures forall p :: 0 <= p < |fb| && !Covers(x0, y0, rows, p) ==> Draw(fb, x0, y0, rows)[p] == fb[p]
    ensures forall p :: 0 <= p < |fb| && (forall r: nat, c: nat :: CellSet(rows, r, c) ==> PixelIndex(x0, y0, r, c) != p) ==>
      Draw(fb, x0, y0, rows)[p] == fb[p]
  {
    forall r: nat, c: nat | CellSet(rows, r, c) && PixelIndex(x0, y0, r, c) < |fb|
      ensures Draw(fb, x0, y0, rows)[PixelIndex(x0, y0, r, c)] == !fb[PixelIndex(x0, y0, r, c)]
    {
      PixelIndexDecodes(x0, y0, r, c);
    }
    forall p | 0 <= p < |fb| && (forall r: nat, c: nat :: CellSet(rows, r, c) ==> PixelIndex(x0, y0, r, c) != p)
      ensures Draw(fb, x0, y0, rows)[p] == fb[p]
    {
      CoversIff(x0, y0, rows, p);
    }
  }

  /** The collision flag is set exactly when some pixel the draw toggles ends off. */
  lemma {:induction false} CollidesIffErased(fb: seq<bool>, x0: nat, y0: nat, rows: seq<byte>)
    ensures Collides(fb, x0, y0, rows) <==>
      exists p :: 0 <= p < |fb| && Covers(x0, y0, rows, p) && !Draw(fb, x0, y0, rows)[p]
  {
    if Collides(fb, x0, y0, rows) {
      var p :| 0 <= p < |fb| && Covers(x0, y0, rows, p) && fb[p];
      assert !Draw(fb, x0, y0, rows)[p];
    }
  }

  /** Drawing a set cell over a pixel that is on reports a collision. */
  lemma {:induction false} DrawOverLitPixelCollides(fb: seq<bool>, x0: nat, y0: nat, rows: seq<byte>, r: nat, c: nat)
    requires CellSet(rows, r, c) && PixelIndex(x0, y0, r, c) < |fb| && fb[PixelIndex(x0, y0, r, c)]
    ensures Collides(fb, x0, y0, rows)
  {
    PixelIndexDecodes(x0, y0, r, c);
    assert Covers(x0, y0, rows, PixelIndex(x0, y0, r, c));
  }

  /** XOR drawing is its own inverse: drawing the same sprite twice restores the framebuffer. */
  lemma {:induction false} DrawTwiceRestores(fb: seq<bool>, x0: nat, y0: nat, rows: seq<byte>)
    ensures Draw(Draw(fb, x0, y0, rows), x0, y0, rows) == fb
  {
    var once := Draw(fb, x0, y0, rows);
    var twice := Draw(once, x0, y0, rows);
    forall p | 0 <= p < |fb| ensures twice[p] == fb[p] {
      assert once[p] == (fb[p] != Covers(x0, y0, rows, p));
    }
  }

  /**
   * On a blank screen the first draw reports no collision, and drawing the same
   * sprite again blanks the screen and reports a collision exactly when the sprite
   * has a set cell on screen.
   */
  lemma {:induction false} DrawTwiceFromBlank(x0: nat, y0: nat, rows: seq<byte>)
    requires Fits(x0, y0, rows)
    ensures !Collides(Blank(), x0, y0, rows)
    ensures Draw(Draw(Blank(), x0, y0, rows), x0, y0, rows) == Blank()
    ensures Collides(Draw(Blank(), x0, y0, rows), x0, y0, rows) <==> exists r: nat, c: nat :: CellSet(rows, r, c)
  {
    DrawTwiceRestores(Blank(), x0, y0, rows);
    var once := Draw(Blank(), x0, y0, rows);
    if exists r: nat, c: nat :: CellSet(rows, r, c) {
      var r: nat, c: nat :| CellSet(rows, r, c);
      DrawToggles(Blank(), x0, y0, rows);
      DrawOverLitPixelCollides(once, x0, y0, rows, r, c);
    }
    if Collides(once, x0, y0, rows) {
      var p :| 0 <= p < |once| && Covers(x0, y0, rows, p) && once[p];
      CoversIff(x0, y0, rows, p);
    }
  }

  // ---------------------------------------------------------------------------
  // The draw loop's progress (used by the imperative draw)
  // ---------------------------------------------------------------------------

  /** Moving past cell (row, col) adds exactly that cell's pixel, if the cell is set. */
  lemma {:induction false} CoverStep(x0: nat, y0: nat, rows: seq<byte>, row: nat, col: nat, p: int)
    requires col < 8
    ensures CoveredBefore(x0, y0, rows, p, row, col + 1) ==
      (CoveredBefore(x0, y0, rows, p, row, col) || (CellSet(rows, row, col) && p == PixelIndex(x0, y0, row, col)))
    ensures p == PixelIndex(x0, y0, row, col) ==> !CoveredBefore(x0, y0, rows, p, row, col)
  {
    PixelIndexDecodes(x0, y0, row, col);
    var d := p - x0 - y0 * Width;
    if d >= 0 && d / Width == row && d % Width == col {
      assert p == PixelIndex(x0, y0, row, col);
    }
  }

  /** Finishing a row is the same as starting the next one. */
  lemma {:induction false} CoverRowStep(x0: nat, y0: nat, rows: seq<byte>, row: nat, p: int)
    ensures CoveredBefore(x0, y0, rows, p, row, 8) == CoveredBefore(x0, y0, rows, p, row + 1, 0)
  {
  }

  /**
   * The draw loop's invariant after the cells before (row, col): each pixel is its
   * original value toggled if one of those cells hit it, and the flag says whether
   * one of those cells hit a pixel that was on.
   */
  ghost predicate DrawnBefore(fb: seq<bool>, cur: seq<bool>, flag: bool, x0: nat, y0: nat, rows: seq<byte>, row: nat, col: nat)
  {
    |cur| == |fb| &&
    (forall p :: 0 <= p < |fb| ==> cur[p] == (fb[p] != CoveredBefore(x0, y0, rows, p, row, col))) &&
    (flag <==> exists p :: 0 <= p < |fb| && CoveredBefore(x0, y0, rows, p, row, col) && fb[p])
  }

  /**
   * Drawing cell (row, col) — toggling its pixel and raising the flag if the
   * pixel ends off, when the cell is set; nothing, when it is not — carries the
   * invariant past that cell.
   */
  lemma {:induction false} DrawCellStep(fb: seq<bool>, cur: seq<bool>, next: seq<bool>, flag: bool, flag': bool,
                                        x0: nat, y0: nat, rows: seq<byte>, row: nat, col: nat)
    requires col < 8 && DrawnBefore(fb, cur, flag, x0, y0, rows, row, col)
    requires CellSet(rows, row, col) ==>
      var q := PixelIndex(x0, y0, row, col);
      q < |cur| && next == cur[q := !cur[q]] && flag' == (flag || !next[q])
    requires !CellSet(rows, row, col) ==> next == cur && flag' == flag
    ensures DrawnBefore(fb, next, flag', x0, y0, rows, row, col + 1)
  {
    var q := PixelIndex(x0, y0, row, col);
    forall p | 0 <= p < |fb|
      ensures CoveredBefore(x0, y0, rows, p, row, col + 1) ==
        (CoveredBefore(x0, y0, rows, p, row, col) || (CellSet(rows, row, col) && p == q))
      ensures p == q ==> !CoveredBefore(x0, y0, rows, p, row, col)
    {
      CoverStep(x0, y0, rows, row, col, p);
    }
    if CellSet(rows, row, col) && flag' && !flag {
      assert CoveredBefore(x0, y0, rows, q, row, col + 1) && fb[q];
    }
  }
}
