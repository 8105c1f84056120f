/**
 * The 8x8 bitmap font both renderers share (the two `alphabet` tables are
 * identical) and the fills that drawing one glyph makes. Bit `ly * 8 + lx` of
 * a glyph is its pixel in column `lx` of row `ly`.
 */
module Font {
  import opened Machine
  import opened Raster

  /** The number of cells of a glyph, eight rows of eight. */
  const GLYPH_CELLS: nat := 64

  /** A box with a diagonal cross, shown for control characters and DEL. */
  const NONPRINTABLE: bv64 := 0xffc399bdbd99c3ff

  /** Glyphs of the printable characters, from ' ' (0x20) to '~' (0x7e). */
  const Printable: seq<bv64> :=
    [0, 0x000c000c1e1e1e0c, 0x0000000000363636, 0x0036367f367f3636] +
    [0x000c1f301e033e0c, 0x0063660c18336300, 0x006e333b6e1c361c, 0x0000000000030606] +
    [0x00180c0606060c18, 0x00060c1818180c06, 0x0000663cff3c6600, 0x00000c0c3f0c0c00] +
    [0x060c0c0000000000, 0x000000003f000000, 0x000c0c0000000000, 0x000103060c183060] +
    [0x3e676f7b73633e, 0x3f0c0c0c0c0e0c, 0x003f33061c30331e, 0x001e33301c30331e] +
    [0x0078307f33363c38, 0x001e3330301f033f, 0x001e33331f03061c, 0x000c0c0c1830333f] +
    [0x001e33331e33331e, 0x000e18303e33331e, 0x000c0c00000c0c00, 0x060c0c00000c0c00] +
    [0x00180c0603060c18, 0x00003f00003f0000, 0x00060c1830180c06, 0x000c000c1830331e] +
    [0x1e037b7b7b633e, 0x33333f33331e0c, 0x003f66663e66663f, 0x003c66030303663c] +
    [0x001f36666666361f, 0x007e06061e06067e, 0x000606061e06067e, 0x007c66730303663c] +
    [0x003333333f333333, 0x001e0c0c0c0c0c1e, 0x001e333330303078, 0x006766361e366667] +
    [0x007e060606060606, 0x0063636b7f7f7763, 0x006363737b6f6763, 0x001c36636363361c] +
    [0x000f06063e66663f, 0x00381e3b3333331e, 0x006766363e66663f, 0x001e33380e07331e] +
    [0x000c0c0c0c0c0c3f, 0x003f333333333333, 0x000c1e3333333333, 0x0063777f6b636363] +
    [0x0063361c1c366363, 0x001e0c0c1e333333, 0x007f060c1830607f, 0x001e06060606061e] +
    [0x00406030180c0603, 0x001e18181818181e, 0x0000000063361c08, 0xff00000000000000] +
    [0x000000180c0c, 0x006e333e301e0000, 0x003b66663e060607, 0x001e3303331e0000] +
    [0x006e33333e303038, 0x001e033f331e0000, 0x000f06060f06361c, 0x1f303e33336e0000] +
    [0x006766666e360607, 0x001e0c0c0c0e000c, 0x1e33333030300030, 0x0067361e36660607] +
    [0x001e0c0c0c0c0c0e, 0x00636b7f7f330000, 0x00333333331f0000, 0x001e3333331e0000] +
    [0x0f063e66663b0000, 0x78303e33336e0000, 0x000f06666e3b0000, 0x001f301e033e0000] +
    [0x00182c0c0c3e0c08, 0x006e333333330000, 0x000c1e3333330000, 0x00367f7f6b630000] +
    [0x0063361c36630000, 0x1f303e3333330000, 0x003f260c193f0000, 0x00380c0c070c0c38] +
    [0x0018181800181818, 0x00070c0c380c0c07, 0x0000000000003b6e]


  /**
   * The `alphabet` table, indexed by the unsigned value of a character: the
   * 32 control characters and DEL show NONPRINTABLE, the printable ones
   * their glyph, and the 128 entries from 0x80 up, which the initializer
   * leaves out, are zero and draw nothing.
   */
  function Glyph(ch: byte): bv64 {
    if ch < 32 || ch == 127 then NONPRINTABLE
    else if ch >= 128 then 0
    else Printable[ch - 32]
  }

  lemma AlphabetLayout()
    ensures |Printable| == 95
    ensures forall ch: byte :: ch < 32 ==> Glyph(ch) == NONPRINTABLE
    ensures Glyph(127) == NONPRINTABLE
    ensures Glyph(32) == 0
    ensures forall ch: byte :: 32 <= ch < 127 ==> Glyph(ch) == Printable[ch - 32]
    ensures forall ch: byte :: ch >= 128 ==> Glyph(ch) == 0
  {
    assert Printable[0] == 0;
  }

  /** Whether glyph pixel `n` (column `n % 8`, row `n / 8`) is set: `letter >> n & 1`. */
  predicate GlyphBit(letter: bv64, n: nat)
    requires n < 64
  {
    (letter >> n) & 1 == 1
  }

  /** The number of set pixels among the first `n` pixels of a glyph. */
  function SetBits(letter: bv64, n: nat): nat
    requires n <= 64
  {
    if n == 0 then 0 else SetBits(letter, n - 1) + (if GlyphBit(letter, n - 1) then 1 else 0)
  }

  /**
   * How glyphs are drawn: consecutive pixel rows are `stride` bytes apart, a
   * glyph pixel is a `scale` x `scale` square, set pixels are painted `fg`
   * and clear pixels `bg` when there is a background colour.
   */
  datatype Pen = Pen(stride: nat, depth: nat, scale: nat, fg: bv32, bg: Option<bv32>)

  /** The fills of a pen can be stored and their rows do not overlap. */
  predicate PenWellFormed(p: Pen) {
    ValidDepth(p.depth) && p.stride >= p.depth * p.scale
  }

  /** Top-left byte of glyph pixel `n` of a glyph whose top-left byte is `origin`. */
  function CellStart(p: Pen, origin: int, n: nat): int {
    origin + (n / 8) * (p.stride * p.scale) + (n % 8) * (p.depth * p.scale)
  }

  /** The fill of glyph pixel `n` with colour `c`. */
  function CellCmd(p: Pen, origin: int, n: nat, c: bv32): FillCmd {
    FillCmd(CellStart(p, origin, n), p.stride, p.depth, c, p.scale, p.scale)
  }

  /** What drawing glyph pixel `n` does: the foreground if the bit is set, else the background if there is one, else nothing. */
  function CellFills(p: Pen, origin: int, letter: bv64, n: nat): seq<FillCmd>
    requires n < 64
  {
    if GlyphBit(letter, n) then [CellCmd(p, origin, n, p.fg)]
    else if p.bg.Some? then [CellCmd(p, origin, n, p.bg.value)]
    else []
  }

  /** The fills made for the first `n` pixels of a glyph, in raster order. */
  function GlyphFills(p: Pen, origin: int, letter: bv64, n: nat): seq<FillCmd>
    requires n <= 64
  {
    if n == 0 then [] else GlyphFills(p, origin, letter, n - 1) + CellFills(p, origin, letter, n - 1)
  }

  /** With a background, every glyph pixel is painted once, in raster order, foreground exactly where its bit is set. */
  lemma {:induction false} GlyphWithBackground(p: Pen, origin: int, letter: bv64, n: nat)
    requires n <= 64 && p.bg.Some?
    ensures |GlyphFills(p, origin, letter, n)| == n
    ensures forall k :: 0 <= k < n ==>
      GlyphFills(p, origin, letter, n)[k] == CellCmd(p, origin, k, if GlyphBit(letter, k) then p.fg else p.bg.value)
  {
    if n > 0 {
      GlyphWithBackground(p, origin, letter, n - 1);
    }
  }

  /** `f` is the foreground fill of one of the first `n` pixels of `letter` whose bit is set. */
  predicate SetPixelFill(p: Pen, origin: int, letter: bv64, n: nat, f: FillCmd)
    requires n <= 64
  {
    exists k :: 0 <= k < n && GlyphBit(letter, k) && f == CellCmd(p, origin, k, p.fg)
  }

  /** Without a background, fill `i` of a glyph is the foreground fill of set pixel `k`. */
  lemma {:induction false} ForegroundCell(p: Pen, origin: int, letter: bv64, n: nat, i: nat) returns (k: nat)
    requires n <= 64 && p.bg.None? && i < |GlyphFills(p, origin, letter, n)|
    ensures k < n && GlyphBit(letter, k) && GlyphFills(p, origin, letter, n)[i] == CellCmd(p, origin, k, p.fg)
  {
    var before := GlyphFills(p, origin, letter, n - 1);
    if i < |before| {
      k := ForegroundCell(p, origin, letter, n - 1, i);
    } else {
      k := n - 1;
    }
  }

  /** Without a background, only the set pixels are painted, all in the foreground colour. */
  lemma {:induction false} GlyphForegroundOnly(p: Pen, origin: int, letter: bv64, n: nat)
    requires n <= 64 && p.bg.None?
    ensures |GlyphFills(p, origin, letter, n)| == SetBits(letter, n)
    ensures forall i :: 0 <= i < |GlyphFills(p, origin, letter, n)| ==>
      GlyphFills(p, origin, letter, n)[i].color == p.fg
    ensures forall i :: 0 <= i < |GlyphFills(p, origin, letter, n)| ==>
      SetPixelFill(p, origin, letter, n, GlyphFills(p, origin, letter, n)[i])
  {
    if n > 0 {
      GlyphForegroundOnly(p, origin, letter, n - 1);
    }
    forall i | 0 <= i < |GlyphFills(p, origin, letter, n)|
      ensures SetPixelFill(p, origin, letter, n, GlyphFills(p, origin, letter, n)[i])
    {
      var k := ForegroundCell(p, origin, letter, n, i);
    }
  }

  /** The 8*scale x 8*scale box a glyph occupies. */
  function GlyphBox(p: Pen, origin: int): FillCmd {
    FillCmd(origin, p.stride, p.depth, p.fg, 8 * p.scale, 8 * p.scale)
  }

  /** The arithmetic of CellInBox, over plain integers. */
  lemma CellArith(o: int, ly: int, lx: int, s: int, st: int, d: int, size: int)
    requires 0 <= ly < 8 && 0 <= lx < 8 && s > 0 && st >= 0 && d >= 0 && 0 <= o
    requires o + (8 * s - 1) * st + (8 * s) * d <= size
    ensures 0 <= o + ly * (st * s) + lx * (d * s)
    ensures o + ly * (st * s) + lx * (d * s) + (s - 1) * st + s * d <= size
  {
    MulMono(0, st, s);
    MulMono(0, d, s);
    MulMono(0, ly, st * s);
    MulMono(0, lx, d * s);
    MulMono(ly, 7, s);
    MulMono(lx, 7, s);
    assert ly * (st * s) + (s - 1) * st == (ly * s + s - 1) * st;
    assert lx * (d * s) + s * d == (lx * s + s) * d;
    MulMono(ly * s + s - 1, 8 * s - 1, st);
    MulMono(lx * s + s, 8 * s, d);
  }

  /** Each glyph pixel lies inside the glyph's box. */
  lemma CellInBox(p: Pen, origin: int, n: nat, size: int)
    requires n < 64 && p.scale > 0 && Inside(GlyphBox(p, origin), size)
    ensures 0 <= CellStart(p, origin, n)
    ensures CellStart(p, origin, n) + (p.scale - 1) * p.stride + p.scale * p.depth <= size
  {
    CellArith(origin, n / 8, n % 8, p.scale, p.stride, p.depth, size);
  }

  /** A glyph whose fills fit the buffer makes, at each of its pixels, fills that fit it. */
  lemma CellInGlyph(p: Pen, origin: int, letter: bv64, n: nat, size: int)
    requires n < 64 && AllInside(GlyphFills(p, origin, letter, GLYPH_CELLS), size)
    ensures AllInside(CellFills(p, origin, letter, n), size)
  {
    GlyphFillsPrefix(p, origin, letter, n + 1, GLYPH_CELLS);
    AllInsideInfix(GlyphFills(p, origin, letter, n), CellFills(p, origin, letter, n),
                   GlyphFills(p, origin, letter, GLYPH_CELLS), size);
  }

  /** The fills of a well-formed pen are well formed. */
  lemma {:induction false} GlyphWellFormed(p: Pen, origin: int, letter: bv64, n: nat)
    requires n <= 64 && PenWellFormed(p)
    ensures AllWellFormed(GlyphFills(p, origin, letter, n))
  {
    if n > 0 {
      GlyphWellFormed(p, origin, letter, n - 1);
    }
  }

  /** A glyph whose box fits the buffer only makes fills that fit it. */
  lemma {:induction false} GlyphInBox(p: Pen, origin: int, letter: bv64, n: nat, size: int)
    requires n <= 64 && p.scale > 0 && Inside(GlyphBox(p, origin), size)
    ensures AllInside(GlyphFills(p, origin, letter, n), size)
  {
    if n > 0 {
      GlyphInBox(p, origin, letter, n - 1, size);
      CellInBox(p, origin, n - 1, size);
    }
  }

  /** The fills of the first `n` pixels come before those of the later ones. */
  lemma {:induction false} GlyphFillsPrefix(p: Pen, origin: int, letter: bv64, n: nat, n': nat)
    requires n <= n' <= 64
    ensures GlyphFills(p, origin, letter, n) <= GlyphFills(p, origin, letter, n')
  {
    if n < n' {
      GlyphFillsPrefix(p, origin, letter, n, n' - 1);
    }
  }

  /** A set glyph pixel is painted in the foreground colour. */
  lemma GlyphPaints(p: Pen, origin: int, letter: bv64, n: nat)
    requires n < 64 && GlyphBit(letter, n)
    ensures CellCmd(p, origin, n, p.fg) in GlyphFills(p, origin, letter, GLYPH_CELLS)
  {
    GlyphFillsPrefix(p, origin, letter, n + 1, GLYPH_CELLS);
    assert GlyphFills(p, origin, letter, n + 1)[|GlyphFills(p, origin, letter, n)|] == CellCmd(p, origin, n, p.fg);
  }
}
