/**
 * The newer framebuffer renderer (text2screen.c): clearing a rectangle of
 * the screen and writing text in the 8x8 font, scaled, aligned and wrapped.
 *
 * The screen is the mapped framebuffer memory, a byte array of
 * `lineLen * height` bytes in which byte `b` of pixel (x, y) sits at
 * `lineLen * y + depth * x + b`.
 */
module Text2Screen {
  import opened Machine
  import opened Raster
  import opened Font

  /** The geometry `fb_init` reads from the driver (`struct fb`). */
  datatype Screen = Screen(width: int, height: int, depth: nat, lineLen: nat)

  /**
   * What the driver guarantees: `width` and `height` fit an `int`, a line
   * holds a row of pixels, and the mapped size fits a `ptrdiff_t`.
   */
  predicate Valid(s: Screen) {
    0 <= s.width < TWO_31 && 0 <= s.height < TWO_31 &&
    s.depth * s.width <= s.lineLen && s.lineLen * s.height < TWO_31
  }

  /** Bytes mapped: `line_length * yres`. */
  function Size(s: Screen): int {
    s.lineLen * s.height
  }

  /** Where byte `b` of pixel (x, y) sits in the mapped memory. */
  function Offset(s: Screen, x: int, y: int, b: int): int {
    s.lineLen * y + s.depth * x + b
  }

  // ---------------------------------------------------------------------
  // normalize

  /** The pixels a signed extent `w` from `x` covers: `[x, x + w)`, or `[x + w, x)` when `w` is negative. */
  predicate InSpan(p: int, x: int, w: int) {
    if w >= 0 then x <= p < x + w else x + w <= p < x
  }

  /** One axis of `normalize`: a negative extent is flipped and the start moved back over it. */
  function NormalizeSpan(x: int, w: int): (r: (int, int))
    ensures r.1 >= 0
    ensures w >= 0 ==> r == (x, w)
    ensures forall p :: r.0 <= p < r.0 + r.1 <==> InSpan(p, x, w)
  {
    if w < 0 then (x + w, -w) else (x, w)
  }

  /** normalize: updates the four coordinates in place. */
  method Normalize(x: int, y: int, width: int, height: int) returns (x': int, y': int, width': int, height': int)
    ensures (x', width') == NormalizeSpan(x, width)
    ensures (y', height') == NormalizeSpan(y, height)
  {
    x', y', width', height' := x, y, width, height;
    if width' < 0 {
      width' := -width';
      x' := x' - width';
    }
    if height' < 0 {
      height' := -height';
      y' := y' - height';
    }
  }

  // ---------------------------------------------------------------------
  // fill and fb_clear

  /** A rectangle of pixels. */
  datatype Rect = Rect(x: int, y: int, width: nat, height: nat)

  predicate InRect(r: Rect, px: int, py: int) {
    r.x <= px < r.x + r.width && r.y <= py < r.y + r.height
  }

  predicate OnScreen(s: Screen, r: Rect) {
    0 <= r.x && r.x + r.width <= s.width && 0 <= r.y && r.y + r.height <= s.height
  }

  /** The fill `fb_clear` makes for rectangle `r`: from its top-left pixel, one screen line per row. */
  function ClearFill(s: Screen, r: Rect, color: bv32): FillCmd {
    FillCmd(Offset(s, r.x, r.y, 0), s.lineLen, s.depth, color, r.width, r.height)
  }

  /** A zero extent reaches the edge at `limit`. */
  function DefaultExtent(extent: int, start: int, limit: int): int {
    if extent == 0 then limit - start else extent
  }

  /**
   * The rectangle `fb_clear` paints: a zero width reaches the right edge and
   * a zero height the bottom edge, the result is normalized, and `None`
   * stands for "Boundaries out of range".
   */
  function ClearArea(s: Screen, x: int, y: int, width: int, height: int): (r: Option<Rect>)
    ensures r.Some? ==> OnScreen(s, r.value)
    ensures r.Some? ==> forall px, py :: InRect(r.value, px, py) <==>
      InSpan(px, x, DefaultExtent(width, x, s.width)) && InSpan(py, y, DefaultExtent(height, y, s.height))
  {
    var (nx, nw) := NormalizeSpan(x, DefaultExtent(width, x, s.width));
    var (ny, nh) := NormalizeSpan(y, DefaultExtent(height, y, s.height));
    if nx < 0 || nx + nw > s.width || ny < 0 || ny + nh > s.height then None
    else Some(Rect(nx, ny, nw, nh))
  }

  /** One axis of the bounds check: it passes exactly when every pixel of the extent lies in `[0, limit)`. */
  lemma AxisCheck(x: int, w: int, limit: int)
    requires limit >= 0 && (w == 0 ==> x == limit)
    ensures var (nx, nw) := NormalizeSpan(x, w);
      (nx < 0 || nx + nw > limit) <==> exists p :: InSpan(p, x, w) && !(0 <= p < limit)
  {
    var (nx, nw) := NormalizeSpan(x, w);
    if nx < 0 {
      assert InSpan(nx, x, w);
    } else if nx + nw > limit {
      assert InSpan(nx + nw - 1, x, w);
    }
  }

  /** fb_clear fails exactly when some pixel of the requested rectangle is off the screen. */
  lemma ClearAreaRejects(s: Screen, x: int, y: int, width: int, height: int)
    requires Valid(s)
    ensures ClearArea(s, x, y, width, height).None? <==>
      (exists px :: InSpan(px, x, DefaultExtent(width, x, s.width)) && !(0 <= px < s.width)) ||
      (exists py :: InSpan(py, y, DefaultExtent(height, y, s.height)) && !(0 <= py < s.height))
  {
    AxisCheck(x, DefaultExtent(width, x, s.width), s.width);
    AxisCheck(y, DefaultExtent(height, y, s.height), s.height);
  }

  /** Zero width and height from a point on the screen clear to the bottom-right corner. */
  lemma ClearToEdges(s: Screen, x: int, y: int)
    requires 0 <= x <= s.width && 0 <= y <= s.height
    ensures ClearArea(s, x, y, 0, 0) == Some(Rect(x, y, s.width - x, s.height - y))
  {
  }

  /** The fill of a rectangle on the screen stays inside the mapped memory and its rows do not overlap. */
  lemma ClearFits(s: Screen, r: Rect, color: bv32)
    requires Valid(s) && OnScreen(s, r)
    ensures s.depth * r.width <= s.lineLen
    ensures ValidDepth(s.depth) ==> WellFormed(ClearFill(s, r, color))
    ensures Inside(ClearFill(s, r, color), Size(s))
  {
    var L, D := s.lineLen, s.depth;
    MulMono(r.width, s.width, D);
    if r.width > 0 && r.height > 0 {
      MulMono(0, r.y, L);
      MulMono(0, r.x, D);
      MulMono(r.x + r.width, s.width, D);
      MulMono(r.y + r.height, s.height, L);
      assert L * r.y + (r.height - 1) * L + L == (r.y + r.height) * L;
      assert D * r.x + r.width * D == (r.x + r.width) * D;
    }
  }

  /** Byte `b` of pixel (i, j) of a fill from pixel (x0, y0) is byte `b` of screen pixel (x0 + i, y0 + j). */
  lemma ShiftOffset(s: Screen, x0: int, y0: int, i: int, j: int, b: int)
    ensures Offset(s, x0, y0, 0) + j * s.lineLen + i * s.depth + b == Offset(s, x0 + i, y0 + j, b)
  {
    assert s.lineLen * (y0 + j) == s.lineLen * y0 + j * s.lineLen;
    assert s.depth * (x0 + i) == s.depth * x0 + i * s.depth;
  }

  /**
   * Clearing rectangle `r` gives every byte of every pixel of `r` its byte
   * of the pixel value and changes no byte outside `r`.
   */
  lemma ClearEffect(s: Screen, m: seq<byte>, r: Rect, color: bv32)
    requires Valid(s) && ValidDepth(s.depth) && OnScreen(s, r) && |m| == Size(s)
    ensures forall px, py, b :: InRect(r, px, py) && 0 <= b < s.depth ==>
      0 <= Offset(s, px, py, b) < |m| &&
      FillSpec(m, ClearFill(s, r, color))[Offset(s, px, py, b)] == PixelBytes(s.depth, color)[b]
    ensures forall k :: 0 <= k < |m| && FillSpec(m, ClearFill(s, r, color))[k] != m[k] ==>
      exists px, py, b :: InRect(r, px, py) && 0 <= b < s.depth && k == Offset(s, px, py, b)
  {
    var f := ClearFill(s, r, color);
    ClearFits(s, r, color);
    forall px, py, b | InRect(r, px, py) && 0 <= b < s.depth
      ensures 0 <= Offset(s, px, py, b) < |m|
      ensures FillSpec(m, f)[Offset(s, px, py, b)] == PixelBytes(s.depth, color)[b]
    {
      FillWritesRectangle(m, f, px - r.x, py - r.y, b);
      ShiftOffset(s, r.x, r.y, px - r.x, py - r.y, b);
    }
    forall k | 0 <= k < |m| && FillSpec(m, f)[k] != m[k]
      ensures exists px, py, b :: InRect(r, px, py) && 0 <= b < s.depth && k == Offset(s, px, py, b)
    {
      FillChangesOnlyRectangle(m, f, k);
      ShiftOffset(s, r.x, r.y, Col(f, k), Row(f, k), Lane(f, k));
      assert InRect(r, r.x + Col(f, k), r.y + Row(f, k));
    }
  }

  /** fill: the rectangle from byte `out`, one screen line per row. */
  method Fill(s: Screen, mem: array<byte>, out: int, color: bv32, width: nat, height: nat) returns (ok: bool)
    requires s.depth * width <= s.lineLen
    requires ValidDepth(s.depth) ==> Inside(FillCmd(out, s.lineLen, s.depth, color, width, height), mem.Length)
    modifies mem
    ensures ok <==> ValidDepth(s.depth) || width == 0 || height == 0
    ensures ok && ValidDepth(s.depth) ==>
      mem[..] == FillSpec(old(mem[..]), FillCmd(out, s.lineLen, s.depth, color, width, height))
    ensures !ValidDepth(s.depth) ==> mem[..] == old(mem[..])
  {
    ok := FillRect(mem, FillCmd(out, s.lineLen, s.depth, color, width, height));
  }

  /**
   * fb_clear: defaults, normalizes and checks the rectangle, then fills it.
   * An unsupported depth aborts at the first pixel, so an empty rectangle
   * still succeeds.
   */
  method FbClear(s: Screen, mem: array<byte>, color: bv32, x: int, y: int, width: int, height: int)
    returns (status: Status)
    requires Valid(s) && mem.Length >= Size(s)
    modifies mem
    ensures ClearArea(s, x, y, width, height).None? ==> status == Failure && mem[..] == old(mem[..])
    ensures ClearArea(s, x, y, width, height).Some? ==>
      var r := ClearArea(s, x, y, width, height).value;
      if ValidDepth(s.depth) then
        status == Success && mem[..] == FillSpec(old(mem[..]), ClearFill(s, r, color))
      else
        mem[..] == old(mem[..]) &&
        (status == Success <==> r.width == 0 || r.height == 0) &&
        (status == Aborted <==> r.width > 0 && r.height > 0)
  {
    var w, h := width, height;
    if w == 0 {
      w := s.width - x;
    }
    if h == 0 {
      h := s.height - y;
    }
    var x', y', w', h' := Normalize(x, y, w, h);
    if x' < 0 || x' + w' > s.width || y' < 0 || y' + h' > s.height {
      return Failure;
    }
    ClearFits(s, Rect(x', y', w', h'), color);
    var ok := Fill(s, mem, Offset(s, x', y', 0), color, w', h');
    status := if ok then Success else Aborted;
  }

  // ---------------------------------------------------------------------
  // fb_write_text: validation, alignment and the capacity check

  /**
   * The arguments of `fb_write_text`. `text` holds the bytes before the
   * terminating NUL; an absent alignment is a NULL pointer.
   */
  datatype TextArgs = TextArgs(
    text: seq<byte>, scale: int, bgClear: bool, bgColor: bv32, fgColor: bv32,
    x: int, y: int, halign: Option<string>, valign: Option<string>)

  /**
   * Why `fb_write_text` stops: its five messages, the two checks that share
   * "Out of screen bounds" and "Text is too long", and `Undefined` for inputs
   * on which the C code has undefined behaviour before drawing (the signed
   * product `scale * 8` overflowing, or a division by a zero
   * `max_chars_per_row`).
   */
  datatype TextError = InvalidScale | HAlignWithX | VAlignWithY | InvalidHAlign | InvalidVAlign
                     | OutOfBounds | TooLong | Undefined

  /** The top-left pixel of the first letter. */
  datatype Placement = Placement(x: int, y: int)

  /** `letter_size`: the side of a scaled glyph. */
  function LetterSize(scale: int): int {
    8 * scale
  }

  /** `row_height`: a glyph plus `space_size` below it. */
  function RowHeight(scale: int): int {
    2 * scale + 8 * scale
  }

  /** `max_chars_per_row`: the most letters side by side that fit the width. */
  function PerRow(s: Screen, scale: int): (r: int)
    requires Valid(s) && scale >= 1
    ensures r >= 0 && r * LetterSize(scale) <= s.width < (r + 1) * LetterSize(scale)
  {
    DivLe(s.width, LetterSize(scale), s.width / LetterSize(scale));
    DivLe(s.width, LetterSize(scale), s.width / LetterSize(scale) + 1);
    s.width / LetterSize(scale)
  }

  /** `first_line_len`: the letters of the first row of a text that starts at column 0. */
  function FirstLine(len: int, perRow: int): int {
    if len > perRow then perRow else len
  }

  /** `rows_in_text`: `(len + max_chars_per_row - 1) / max_chars_per_row` in `unsigned int` arithmetic. */
  function TextRows(len: int, perRow: int): int
    requires perRow >= 1
  {
    U32(len + perRow - 1) / perRow
  }

  /** `strcmp(name, word) == 0` for an alignment that was given. */
  predicate Named(name: Option<string>, word: string) {
    name == Some(word)
  }

  /** The column the horizontal alignment gives, or `None` for an unknown alignment. */
  function AlignX(s: Screen, a: TextArgs): Option<int>
    requires Valid(s) && a.scale >= 1
  {
    var slack := U32(s.width - U32(FirstLine(|a.text|, PerRow(s, a.scale)) * LetterSize(a.scale)));
    if a.halign.None? || Named(a.halign, "left") then Some(a.x)
    else if Named(a.halign, "right") then Some(ToInt32(slack))
    else if Named(a.halign, "center") then Some(ToInt32(slack / 2))
    else None
  }

  /** The pixel row the vertical alignment gives, or `None` for an unknown alignment. */
  function AlignY(s: Screen, a: TextArgs): Option<int>
    requires Valid(s) && a.scale >= 1 && PerRow(s, a.scale) >= 1
  {
    var room := U32(s.height - U32(RowHeight(a.scale) * TextRows(|a.text|, PerRow(s, a.scale))));
    if a.valign.None? || Named(a.valign, "top") then Some(a.y)
    else if Named(a.valign, "center") then Some(ToInt32(room / 2))
    else if Named(a.valign, "bottom") then Some(ToInt32(room))
    else None
  }

  /**
   * The validation and alignment of `fb_write_text` up to the bounds check:
   * the placement the alignment options give, or the first error.
   */
  function Align(s: Screen, a: TextArgs): (r: Result<Placement, TextError>)
    requires Valid(s)
    ensures r == Err(InvalidScale) <==> a.scale < 1
    ensures r.Ok? ==> 1 <= a.scale && LetterSize(a.scale) < TWO_31 && PerRow(s, a.scale) >= 1
    ensures r.Ok? ==> (a.halign.Some? ==> a.x == 0) && (a.valign.Some? ==> a.y == 0)
    ensures r.Ok? ==> AlignX(s, a).Some? && AlignY(s, a).Some? && r.value == Placement(AlignX(s, a).value, AlignY(s, a).value)
    ensures r == Err(InvalidHAlign) ==>
      a.halign.Some? && a.halign.value != "left" && a.halign.value != "right" && a.halign.value != "center"
    ensures r == Err(InvalidVAlign) ==>
      a.valign.Some? && a.valign.value != "top" && a.valign.value != "center" && a.valign.value != "bottom"
  {
    if a.scale < 1 then Err(InvalidScale)
    else if LetterSize(a.scale) >= TWO_31 then Err(Undefined)
    else if a.x != 0 && a.halign.Some? then Err(HAlignWithX)
    else if a.y != 0 && a.valign.Some? then Err(VAlignWithY)
    else if AlignX(s, a).None? then Err(InvalidHAlign)
    else if PerRow(s, a.scale) == 0 then Err(Undefined)
    else if AlignY(s, a).None? then Err(InvalidVAlign)
    else Ok(Placement(AlignX(s, a).value, AlignY(s, a).value))
  }

  /**
   * The letters the source admits from `p`:
   * `(max_rows - 1) * max_chars_per_row + (width - x) / letter_size`, all in
   * `unsigned int` arithmetic, with `max_rows = (height - y) / row_height`.
   */
  function Capacity(s: Screen, scale: int, p: Placement): int
    requires Valid(s) && scale >= 1
  {
    var maxRows := U32(s.height - p.y) / RowHeight(scale);
    U32(U32(U32(maxRows - 1) * PerRow(s, scale)) + U32(s.width - p.x) / LetterSize(scale))
  }

  /** The same count in exact arithmetic. */
  function ExactCapacity(s: Screen, scale: int, p: Placement): int
    requires Valid(s) && scale >= 1
  {
    ((s.height - p.y) / RowHeight(scale) - 1) * PerRow(s, scale) + (s.width - p.x) / LetterSize(scale)
  }

  /**
   * fb_write_text's checks as written: the origin must lie in
   * `[0, width] x [0, width]` (the height is not consulted), and the text
   * must not exceed the wrapped-around `Capacity`.
   */
  function Layout(s: Screen, a: TextArgs): (r: Result<Placement, TextError>)
    requires Valid(s)
    ensures r.Ok? ==> Align(s, a) == r && 0 <= r.value.x <= s.width && 0 <= r.value.y <= s.width
    ensures r.Ok? ==> |a.text| <= Capacity(s, a.scale, r.value)
    ensures Align(s, a).Err? ==> r == Align(s, a)
  {
    match Align(s, a)
    case Err(e) => Err(e)
    case Ok(p) =>
      if p.x < 0 || p.x > s.width || p.y < 0 || p.y > s.width then Err(OutOfBounds)
      else if |a.text| > Capacity(s, a.scale, p) then Err(TooLong)
      else Ok(p)
  }

  /**
   * The checks as evidently intended: the origin must lie on the screen
   * (`y` against the height) and the text must not exceed `ExactCapacity`.
   */
  function CheckedLayout(s: Screen, a: TextArgs): (r: Result<Placement, TextError>)
    requires Valid(s)
    ensures r.Ok? ==> Align(s, a) == r && 0 <= r.value.x <= s.width && 0 <= r.value.y <= s.height
    ensures r.Ok? ==> |a.text| <= ExactCapacity(s, a.scale, r.value)
    ensures Align(s, a).Err? ==> r == Align(s, a)
  {
    match Align(s, a)
    case Err(e) => Err(e)
    case Ok(p) =>
      if p.x < 0 || p.x > s.width || p.y < 0 || p.y > s.height then Err(OutOfBounds)
      else if |a.text| > ExactCapacity(s, a.scale, p) then Err(TooLong)
      else Ok(p)
  }

  /** `rows_in_text` is the number of rows of `perRow` letters the text needs. */
  lemma TextRowsCover(len: int, perRow: int)
    requires 0 <= len && perRow >= 1 && len + perRow - 1 < TWO_32
    ensures var rows := TextRows(len, perRow);
      0 <= rows && len <= rows * perRow && (len > 0 ==> (rows - 1) * perRow < len) && (len == 0 ==> rows == 0)
  {
    var rows := TextRows(len, perRow);
    DivNonneg(len + perRow - 1, perRow);
    DivLe(len + perRow - 1, perRow, rows);
    DivLe(len + perRow - 1, perRow, rows + 1);
  }

  /**
   * Horizontal alignment: "left" keeps `x`, "right" ends the first row flush
   * with the right edge, "center" leaves left and right margins that differ
   * by at most one pixel; the first row is `min(len, max_chars_per_row)`
   * letters wide.
   */
  lemma AlignHorizontal(s: Screen, a: TextArgs)
    requires Valid(s) && a.scale >= 1
    ensures var n := FirstLine(|a.text|, PerRow(s, a.scale)) * LetterSize(a.scale);
      0 <= n <= s.width &&
      (a.halign.None? || Named(a.halign, "left") ==> AlignX(s, a) == Some(a.x)) &&
      (Named(a.halign, "right") ==> AlignX(s, a) == Some(s.width - n)) &&
      (Named(a.halign, "center") ==>
        AlignX(s, a).Some? && 0 <= (s.width - n - AlignX(s, a).value) - AlignX(s, a).value <= 1)
  {
    var perRow := PerRow(s, a.scale);
    var first := FirstLine(|a.text|, perRow);
    MulMono(first, perRow, LetterSize(a.scale));
    MulMono(0, first, LetterSize(a.scale));
  }

  /**
   * Vertical alignment of a text block no taller than the screen: "top"
   * keeps `y`, "bottom" ends the last row at the bottom edge, "center"
   * leaves top and bottom margins that differ by at most one pixel.
   */
  lemma AlignVertical(s: Screen, a: TextArgs)
    requires Valid(s) && a.scale >= 1 && PerRow(s, a.scale) >= 1
    requires RowHeight(a.scale) * TextRows(|a.text|, PerRow(s, a.scale)) <= s.height
    ensures var h := RowHeight(a.scale) * TextRows(|a.text|, PerRow(s, a.scale));
      (a.valign.None? || Named(a.valign, "top") ==> AlignY(s, a) == Some(a.y)) &&
      (Named(a.valign, "bottom") ==> AlignY(s, a) == Some(s.height - h)) &&
      (Named(a.valign, "center") ==>
        AlignY(s, a).Some? && 0 <= (s.height - h - AlignY(s, a).value) - AlignY(s, a).value <= 1)
  {
    var perRow := PerRow(s, a.scale);
    DivNonneg(U32(|a.text| + perRow - 1), perRow);
    MulMono(0, TextRows(|a.text|, perRow), RowHeight(a.scale));
  }

  // ---------------------------------------------------------------------
  // fb_write_text: the letter cursor and the fills of the glyph loop

  /** `letter_out` as an offset into the mapped memory, and `row`. */
  datatype Cursor = Cursor(out: int, row: int)

  /**
   * The step after each letter: move one letter right; if that passes
   * `last_letter_in_row`, the last slot of the current row, go down to
   * column 0 of the next row.
   */
  function Advance(s: Screen, scale: int, y: int, cur: Cursor): Cursor {
    var next := cur.out + s.depth * LetterSize(scale);
    var last := s.lineLen * (y + RowHeight(scale) * cur.row) + s.depth * (s.width - LetterSize(scale));
    if next > last then Cursor(s.lineLen * (y + RowHeight(scale) * (cur.row + 1)), cur.row + 1)
    else Cursor(next, cur.row)
  }

  /** The cursor before letter `c`. */
  function CursorAt(s: Screen, scale: int, p: Placement, c: nat): Cursor {
    if c == 0 then Cursor(Offset(s, p.x, p.y, 0), 0)
    else Advance(s, scale, p.y, CursorAt(s, scale, p, c - 1))
  }

  /** The pen the glyph loop draws with: screen lines, the scale, and the background only with `bg_clear`. */
  function TextPen(s: Screen, a: TextArgs): Pen
    requires a.scale >= 1
  {
    Pen(s.lineLen, s.depth, a.scale, a.fgColor, if a.bgClear then Some(a.bgColor) else None)
  }

  /** The fills of letter `c`: its glyph drawn at the cursor. */
  function LetterFills(s: Screen, a: TextArgs, p: Placement, c: nat): seq<FillCmd>
    requires a.scale >= 1 && c < |a.text|
  {
    GlyphFills(TextPen(s, a), CursorAt(s, a.scale, p, c).out, Glyph(a.text[c]), GLYPH_CELLS)
  }

  /** The fills of every letter, letter by letter. */
  function Letters(s: Screen, a: TextArgs, p: Placement): (r: seq<seq<FillCmd>>)
    requires a.scale >= 1
    ensures |r| == |a.text|
    ensures forall c :: 0 <= c < |r| ==> r[c] == LetterFills(s, a, p, c)
  {
    seq(|a.text|, c requires 0 <= c < |a.text| => LetterFills(s, a, p, c))
  }

  /** The fills made for the first `c` letters, in order. */
  function TextFills(s: Screen, a: TextArgs, p: Placement, c: nat): seq<FillCmd>
    requires a.scale >= 1 && c <= |a.text|
  {
    Flatten(Letters(s, a, p)[..c])
  }

  /** The fills of earlier letters come first. */
  lemma TextFillsPrefix(s: Screen, a: TextArgs, p: Placement, c: nat, c': nat)
    requires a.scale >= 1 && c <= c' <= |a.text|
    ensures TextFills(s, a, p, c) <= TextFills(s, a, p, c')
  {
    FlattenPrefix(Letters(s, a, p), c, c');
  }

  /** Letter `c` adds its glyph's fills. */
  lemma TextFillsSnoc(s: Screen, a: TextArgs, p: Placement, c: nat)
    requires a.scale >= 1 && c < |a.text|
    ensures TextFills(s, a, p, c + 1) == TextFills(s, a, p, c) + LetterFills(s, a, p, c)
  {
    FlattenSnoc(Letters(s, a, p), c);
  }

  /** With a well-formed pen every fill is well formed. */
  lemma {:induction false} TextFillsWellFormed(s: Screen, a: TextArgs, p: Placement, c: nat)
    requires a.scale >= 1 && c <= |a.text| && PenWellFormed(TextPen(s, a))
    ensures AllWellFormed(TextFills(s, a, p, c))
  {
    if c > 0 {
      TextFillsWellFormed(s, a, p, c - 1);
      GlyphWellFormed(TextPen(s, a), CursorAt(s, a.scale, p, c - 1).out, Glyph(a.text[c - 1]), GLYPH_CELLS);
      TextFillsSnoc(s, a, p, c - 1);
      AllWellFormedConcat(TextFills(s, a, p, c - 1), LetterFills(s, a, p, c - 1));
    }
  }

  // ---------------------------------------------------------------------
  // Where each letter lands

  /** The letters the first row holds: those that fit from `x`, and always the first one. */
  function FirstRowSlots(width: int, x: int, ls: int): (r: int)
    requires ls >= 1
    ensures r >= 1
  {
    var q := (width - x) / ls;
    if q >= 1 then q else 1
  }

  /** The row letter `c` lands in: the first `n0` letters in row 0, then `perRow` letters per row. */
  function SlotRow(n0: int, perRow: int, c: int): int
    requires perRow >= 1
  {
    if c < n0 then 0 else 1 + (c - n0) / perRow
  }

  /** The pixel column letter `c` starts at: after `x` in the first row, from column 0 in the others. */
  function SlotColumn(x: int, ls: int, n0: int, perRow: int, c: int): int
    requires perRow >= 1
  {
    if c < n0 then x + c * ls else ((c - n0) % perRow) * ls
  }

  /** Inside the first row the next letter follows on. */
  lemma WrapFirstRow(W: int, x: int, ls: int, m: int, c: int)
    requires 1 <= ls && 1 <= m && 0 <= x <= W && 0 <= c && c + 1 < FirstRowSlots(W, x, ls)
    ensures SlotColumn(x, ls, FirstRowSlots(W, x, ls), m, c) + ls <= W - ls
    ensures SlotColumn(x, ls, FirstRowSlots(W, x, ls), m, c + 1) == SlotColumn(x, ls, FirstRowSlots(W, x, ls), m, c) + ls
    ensures SlotRow(FirstRowSlots(W, x, ls), m, c + 1) == SlotRow(FirstRowSlots(W, x, ls), m, c)
  {
    DivLe(W - x, ls, c + 2);
    assert (c + 2) * ls == c * ls + ls + ls;
    assert (c + 1) * ls == c * ls + ls;
  }

  /** After the last letter of the first row the cursor goes to column 0 of row 1. */
  lemma WrapFirstEnd(W: int, x: int, ls: int, m: int, c: int)
    requires 1 <= ls && 1 <= m && 0 <= x <= W && 0 <= c && c + 1 == FirstRowSlots(W, x, ls)
    ensures SlotColumn(x, ls, FirstRowSlots(W, x, ls), m, c) + ls > W - ls
    ensures SlotColumn(x, ls, FirstRowSlots(W, x, ls), m, c + 1) == 0
    ensures SlotRow(FirstRowSlots(W, x, ls), m, c + 1) == SlotRow(FirstRowSlots(W, x, ls), m, c) + 1
  {
    var q := (W - x) / ls;
    if q >= 1 {
      DivLe(W - x, ls, q + 1);
      assert (q + 1) * ls == (q - 1) * ls + ls + ls;
    } else {
      DivLe(W - x, ls, 1);
    }
  }

  /** In the later rows the cursor follows on until `perRow` letters are placed, then wraps. */
  lemma WrapLater(W: int, x: int, ls: int, m: int, c: int)
    requires 1 <= ls && 1 <= m && m * ls <= W < (m + 1) * ls && 0 <= x <= W && FirstRowSlots(W, x, ls) <= c
    ensures var n0 := FirstRowSlots(W, x, ls);
      if SlotColumn(x, ls, n0, m, c) + ls > W - ls then
        SlotColumn(x, ls, n0, m, c + 1) == 0 && SlotRow(n0, m, c + 1) == SlotRow(n0, m, c) + 1
      else
        SlotColumn(x, ls, n0, m, c + 1) == SlotColumn(x, ls, n0, m, c) + ls && SlotRow(n0, m, c + 1) == SlotRow(n0, m, c)
  {
    var k := c - FirstRowSlots(W, x, ls);
    var i := k % m;
    if i < m - 1 {
      DivModOf(k + 1, m, k / m, i + 1);
      MulMono(i + 2, m, ls);
      assert (i + 2) * ls == i * ls + ls + ls;
      assert (i + 1) * ls == i * ls + ls;
    } else {
      DivModOf(k + 1, m, k / m + 1, 0);
      assert (m + 1) * ls == (m - 1) * ls + ls + ls;
    }
  }

  /** The cursor of letter `c` in closed form. */
  function SlotCursor(s: Screen, scale: int, p: Placement, c: nat): Cursor
    requires Valid(s) && scale >= 1 && PerRow(s, scale) >= 1
  {
    var n0 := FirstRowSlots(s.width, p.x, LetterSize(scale));
    var row := SlotRow(n0, PerRow(s, scale), c);
    Cursor(s.lineLen * (p.y + RowHeight(scale) * row) + s.depth * SlotColumn(p.x, LetterSize(scale), n0, PerRow(s, scale), c), row)
  }

  /** One step of the cursor moves from one slot to the next. */
  lemma AdvanceSlot(s: Screen, scale: int, p: Placement, c: nat)
    requires Valid(s) && scale >= 1 && s.depth >= 1 && PerRow(s, scale) >= 1 && 0 <= p.x <= s.width
    ensures Advance(s, scale, p.y, SlotCursor(s, scale, p, c)) == SlotCursor(s, scale, p, c + 1)
  {
    var ls, m, W, D := LetterSize(scale), PerRow(s, scale), s.width, s.depth;
    var n0 := FirstRowSlots(W, p.x, ls);
    var col := SlotColumn(p.x, ls, n0, m, c);
    assert D * col + D * ls == D * (col + ls);
    MulStrict(D, col + ls, W - ls);
    if c + 1 < n0 {
      WrapFirstRow(W, p.x, ls, m, c);
    } else if c + 1 == n0 {
      WrapFirstEnd(W, p.x, ls, m, c);
    } else {
      WrapLater(W, p.x, ls, m, c);
    }
  }

  /**
   * The cursor of `fb_write_text` in closed form: the first row holds the
   * letters that fit from `x` (at least one), every later row holds
   * `max_chars_per_row` letters from column 0, and rows are `row_height`
   * pixel rows apart.
   */
  lemma {:induction false} CursorClosedForm(s: Screen, scale: int, p: Placement, c: nat)
    requires Valid(s) && scale >= 1 && s.depth >= 1 && PerRow(s, scale) >= 1 && 0 <= p.x <= s.width
    ensures CursorAt(s, scale, p, c) == SlotCursor(s, scale, p, c)
  {
    if c > 0 {
      CursorClosedForm(s, scale, p, c - 1);
      AdvanceSlot(s, scale, p, c - 1);
    }
  }

  /** A glyph whose column is on the screen and whose box ends a pixel row above the bottom lies in the memory. */
  lemma BoxArith(L: int, D: int, W: int, H: int, y: int, ls: int, col: int)
    requires 0 <= D && D * W <= L && 0 <= y && 0 <= col <= W && 1 <= ls <= W && y + ls + 1 <= H
    ensures 0 <= L * y + D * col
    ensures L * y + D * col + (ls - 1) * L + ls * D <= L * H
  {
    MulMono(col, W, D);
    MulMono(ls, W, D);
    MulMono(0, y, L);
    MulMono(0, col, D);
    MulMono(y + ls + 1, H, L);
    assert L * y + L + (ls - 1) * L + L == (y + ls + 1) * L;
  }

  /** Letter columns, over plain integers: every letter starts between the left and the right edge. */
  lemma SlotColumnArith(W: int, x: int, ls: int, m: int, c: int)
    requires 1 <= ls && 1 <= m && m == W / ls && 0 <= x <= W && 0 <= c
    ensures 0 <= SlotColumn(x, ls, FirstRowSlots(W, x, ls), m, c) <= W
  {
    var q, n0 := (W - x) / ls, FirstRowSlots(W, x, ls);
    if c >= n0 {
      var k := c - n0;
      DivLe(W, ls, m);
      MulMono(k % m + 1, m, ls);
      MulMono(0, k % m, ls);
    } else if q >= 1 {
      DivLe(W - x, ls, q);
      MulMono(c + 1, q, ls);
      MulMono(0, c, ls);
    }
  }

  /** Letter rows, over plain integers: with room for `len` letters, letter `c` is in one of the `maxRows` rows. */
  lemma SlotRowArith(m: int, q: int, n0: int, maxRows: int, len: int, c: int)
    requires 1 <= m && 0 <= q <= m && n0 == (if q >= 1 then q else 1)
    requires 0 <= c < len <= (maxRows - 1) * m + q
    ensures 0 <= SlotRow(n0, m, c) <= maxRows - 1
  {
    if maxRows <= 0 {
      MulMono(maxRows - 1, -1, m);
      assert false;
    }
    if c >= n0 {
      DivNonneg(c - n0, m);
      DivLe(c - n0, m, maxRows - 1);
    }
  }

  /** Row heights, over plain integers: a glyph in one of the `(H - y) / rh` rows ends above the bottom edge. */
  lemma RowHeightArith(H: int, y: int, ls: int, rh: int, row: int)
    requires 1 <= ls && ls + 2 <= rh && 0 <= y <= H && 0 <= row <= (H - y) / rh - 1
    ensures y + rh * row + ls + 1 <= H
  {
    var maxRows := (H - y) / rh;
    DivLe(H - y, rh, maxRows);
    MulMono(row, maxRows - 1, rh);
  }

  /** Under the intended checks every letter starts on the screen, in a row whose glyphs end above the bottom edge. */
  lemma SlotBounds(s: Screen, a: TextArgs, p: Placement, c: nat)
    requires Valid(s) && CheckedLayout(s, a) == Ok(p) && c < |a.text|
    ensures var n0 := FirstRowSlots(s.width, p.x, LetterSize(a.scale));
      0 <= SlotColumn(p.x, LetterSize(a.scale), n0, PerRow(s, a.scale), c) <= s.width &&
      0 <= SlotRow(n0, PerRow(s, a.scale), c) &&
      p.y + RowHeight(a.scale) * SlotRow(n0, PerRow(s, a.scale), c) + LetterSize(a.scale) + 1 <= s.height
  {
    var W, H, ls, rh, m := s.width, s.height, LetterSize(a.scale), RowHeight(a.scale), PerRow(s, a.scale);
    var q := (W - p.x) / ls;
    DivNonneg(W - p.x, ls);
    DivLe(W - p.x, ls, q);
    DivLe(W, ls, q);
    SlotColumnArith(W, p.x, ls, m, c);
    SlotRowArith(m, q, FirstRowSlots(W, p.x, ls), (H - p.y) / rh, |a.text|, c);
    RowHeightArith(H, p.y, ls, rh, SlotRow(FirstRowSlots(W, p.x, ls), m, c));
  }

  /** Under the intended checks the box of every letter lies in the mapped memory. */
  lemma LetterOnScreen(s: Screen, a: TextArgs, p: Placement, c: nat)
    requires Valid(s) && s.depth >= 1 && CheckedLayout(s, a) == Ok(p) && c < |a.text|
    ensures Inside(GlyphBox(TextPen(s, a), CursorAt(s, a.scale, p, c).out), Size(s))
  {
    var ls, m := LetterSize(a.scale), PerRow(s, a.scale);
    var n0 := FirstRowSlots(s.width, p.x, ls);
    var row, col := SlotRow(n0, m, c), SlotColumn(p.x, ls, n0, m, c);
    CursorClosedForm(s, a.scale, p, c);
    SlotBounds(s, a, p, c);
    MulMono(1, PerRow(s, a.scale), LetterSize(a.scale));
    MulMono(0, row, RowHeight(a.scale));
    BoxArith(s.lineLen, s.depth, s.width, s.height, p.y + RowHeight(a.scale) * row, LetterSize(a.scale), col);
  }

  /** A scaled glyph pixel fits a line, so the text pen is well formed at a supported depth. */
  lemma PenFits(s: Screen, a: TextArgs)
    requires Valid(s) && a.scale >= 1 && PerRow(s, a.scale) >= 1
    ensures s.depth * a.scale <= s.lineLen
    ensures ValidDepth(s.depth) ==> PenWellFormed(TextPen(s, a))
  {
    MulMono(1, PerRow(s, a.scale), LetterSize(a.scale));
    MulMono(a.scale, s.width, s.depth);
  }

  /** Under the intended checks every fill of the text lies in the mapped memory. */
  lemma TextFillsInside(s: Screen, a: TextArgs, p: Placement)
    requires Valid(s) && s.depth >= 1 && CheckedLayout(s, a) == Ok(p)
    ensures AllInside(TextFills(s, a, p, |a.text|), Size(s))
  {
    var xs := Letters(s, a, p);
    forall c | 0 <= c < |xs|
      ensures AllInside(xs[c], Size(s))
    {
      LetterOnScreen(s, a, p, c);
      GlyphInBox(TextPen(s, a), CursorAt(s, a.scale, p, c).out, Glyph(a.text[c]), GLYPH_CELLS, Size(s));
    }
    assert xs[..|xs|] == xs;
    FlattenInside(xs, Size(s));
  }

  /** The fills of glyph pixel `n` drawn from `out`, in the terms of the glyph loop. */
  lemma CellCases(s: Screen, a: TextArgs, origin: int, letter: bv64, n: nat, out: int)
    requires a.scale >= 1 && n < 64 && CellStart(TextPen(s, a), origin, n) == out
    ensures var cells := CellFills(TextPen(s, a), origin, letter, n);
      if GlyphBit(letter, n) then cells == [FillCmd(out, s.lineLen, s.depth, a.fgColor, a.scale, a.scale)]
      else if a.bgClear then cells == [FillCmd(out, s.lineLen, s.depth, a.bgColor, a.scale, a.scale)]
      else cells == []
  {
  }

  /** Every set pixel of every letter's glyph is painted in the foreground colour at that letter's cursor. */
  lemma LetterPaints(s: Screen, a: TextArgs, p: Placement, c: nat, n: nat)
    requires a.scale >= 1 && c < |a.text| && n < 64 && GlyphBit(Glyph(a.text[c]), n)
    ensures CellCmd(TextPen(s, a), CursorAt(s, a.scale, p, c).out, n, a.fgColor) in TextFills(s, a, p, |a.text|)
  {
    var pen, origin := TextPen(s, a), CursorAt(s, a.scale, p, c).out;
    var cell := CellCmd(pen, origin, n, a.fgColor);
    GlyphPaints(pen, origin, Glyph(a.text[c]), n);
    TextFillsSnoc(s, a, p, c);
    assert cell in TextFills(s, a, p, c + 1);
    TextFillsPrefix(s, a, p, c + 1, |a.text|);
    InPrefix(cell, TextFills(s, a, p, c + 1), TextFills(s, a, p, |a.text|));
  }

  /** The capacity without wrap-around, over plain integers. */
  lemma CapacityArith(maxRows: int, m: int, q: int)
    requires 1 <= maxRows && 1 <= m && 0 <= q && (maxRows - 1) * m + q < TWO_32
    ensures U32(U32(U32(maxRows - 1) * m) + q) == (maxRows - 1) * m + q
  {
    var k := maxRows - 1;
    MulMono(1, m, k);
    assert U32(k) == k;
    assert U32(k * m) == k * m;
  }

  /** The exact capacity stays below 2^32 on a screen whose mapped size fits an `int`, over plain integers. */
  lemma CapacityBound(H: int, W: int, L: int, D: int, k: int, m: int, q: int)
    requires 0 <= k <= H && 0 <= m <= W && 0 <= q <= W < TWO_31 && 1 <= D && D * W <= L && L * H < TWO_31
    ensures k * m + q < TWO_32
  {
    MulMono(k, H, m);
    MulMono(m, W, H);
    MulMono(1, D, W);
    MulMono(W, L, H);
  }

  /**
   * On a screen no taller than it is wide, the checks as written and as
   * intended accept the same texts at the same placement.
   */
  lemma CheckedAgrees(s: Screen, a: TextArgs)
    requires Valid(s) && s.depth >= 1 && s.height <= s.width && CheckedLayout(s, a).Ok?
    ensures Layout(s, a) == CheckedLayout(s, a)
  {
    var p := CheckedLayout(s, a).value;
    var rh, ls, m := RowHeight(a.scale), LetterSize(a.scale), PerRow(s, a.scale);
    var maxRows, q := (s.height - p.y) / rh, (s.width - p.x) / ls;
    assert Align(s, a) == Ok(p) && 0 <= p.y <= s.height && |a.text| <= ExactCapacity(s, a.scale, p);
    assert U32(s.height - p.y) == s.height - p.y && U32(s.width - p.x) == s.width - p.x;
    assert Capacity(s, a.scale, p) == U32(U32(U32(maxRows - 1) * m) + q);
    assert ExactCapacity(s, a.scale, p) == (maxRows - 1) * m + q;
    DivAtMost(s.width - p.x, ls);
    if maxRows >= 1 {
      DivAtMost(s.height - p.y, rh);
      DivAtMost(s.width, ls);
      CapacityBound(s.height, s.width, s.lineLen, s.depth, maxRows - 1, m, q);
      CapacityArith(maxRows, m, q);
      assert Capacity(s, a.scale, p) == ExactCapacity(s, a.scale, p);
    } else {
      DivLe(s.width - p.x, ls, q);
      DivLe(s.width, ls, q);
      MulMono(maxRows - 1, -1, m);
      assert ExactCapacity(s, a.scale, p) <= 0 <= Capacity(s, a.scale, p);
    }
  }

  // ---------------------------------------------------------------------
  // fb_write_text

  /**
   * One glyph pixel of fb_write_text: filled in the foreground colour when
   * its bit is set, otherwise in the background colour if `bg_clear`, else
   * left alone. At an unsupported depth a fill aborts and `ok` is false.
   */
  method DrawCell(s: Screen, mem: array<byte>, a: TextArgs, origin: int, letter: bv64, n: nat, out: int)
    returns (ok: bool)
    requires a.scale >= 1 && s.depth * a.scale <= s.lineLen && n < 64
    requires CellStart(TextPen(s, a), origin, n) == out
    requires ValidDepth(s.depth) ==> AllInside(GlyphFills(TextPen(s, a), origin, letter, GLYPH_CELLS), mem.Length)
    modifies mem
    ensures ValidDepth(s.depth) ==> ok
    ensures ok ==> Drawn(ValidDepth(s.depth), old(mem[..]), CellFills(TextPen(s, a), origin, letter, n), mem[..])
    ensures !ok ==> CellFills(TextPen(s, a), origin, letter, n) != [] && mem[..] == old(mem[..])
  {
    CellCases(s, a, origin, letter, n, out);
    if ValidDepth(s.depth) {
      CellInGlyph(TextPen(s, a), origin, letter, n, mem.Length);
      if GlyphBit(letter, n) || a.bgClear {
        assert Inside(CellFills(TextPen(s, a), origin, letter, n)[0], mem.Length);
      }
    }
    ghost var m0 := mem[..];
    if GlyphBit(letter, n) {
      ok := Fill(s, mem, out, a.fgColor, a.scale, a.scale);
      if ok && ValidDepth(s.depth) {
        DrawnOne(m0, FillCmd(out, s.lineLen, s.depth, a.fgColor, a.scale, a.scale), mem[..]);
      }
    } else if a.bgClear {
      ok := Fill(s, mem, out, a.bgColor, a.scale, a.scale);
      if ok && ValidDepth(s.depth) {
        DrawnOne(m0, FillCmd(out, s.lineLen, s.depth, a.bgColor, a.scale, a.scale), mem[..]);
      }
    } else {
      ok := true;
    }
  }

  /** The byte the inner glyph loop has reached is the start of glyph pixel `8 * ly + lx`. */
  lemma CellStartAt(s: Screen, a: TextArgs, origin: int, ly: nat, lx: nat, out: int)
    requires a.scale >= 1 && lx < 8
    requires out == origin + ly * (s.lineLen * a.scale) + lx * (s.depth * a.scale)
    ensures CellStart(TextPen(s, a), origin, 8 * ly + lx) == out
  {
    DivModOf(8 * ly + lx, 8, ly, lx);
  }

  /** Drawing glyph pixel `n` after the first `n` extends what is drawn to the first `n + 1`. */
  lemma CellStep(valid: bool, pen: Pen, origin: int, letter: bv64, n: nat, m0: seq<byte>, m1: seq<byte>, m2: seq<byte>)
    requires n < 64
    requires Drawn(valid, m0, GlyphFills(pen, origin, letter, n), m1)
    requires Drawn(valid, m1, CellFills(pen, origin, letter, n), m2)
    ensures Drawn(valid, m0, GlyphFills(pen, origin, letter, n + 1), m2)
  {
    DrawnConcat(valid, m0, GlyphFills(pen, origin, letter, n), m1, CellFills(pen, origin, letter, n), m2);
  }

  /** One pass of the inner glyph loop: pixel `8 * ly + lx` drawn from `out` after the pixels before it. */
  method DrawGlyphCell(s: Screen, mem: array<byte>, a: TextArgs, origin: int, letter: bv64, ly: nat, lx: nat, out: int,
                       ghost m0: seq<byte>)
    returns (ok: bool)
    requires a.scale >= 1 && s.depth * a.scale <= s.lineLen && ly < 8 && lx < 8
    requires out == origin + ly * (s.lineLen * a.scale) + lx * (s.depth * a.scale)
    requires ValidDepth(s.depth) ==> AllInside(GlyphFills(TextPen(s, a), origin, letter, GLYPH_CELLS), mem.Length)
    requires Drawn(ValidDepth(s.depth), m0, GlyphFills(TextPen(s, a), origin, letter, 8 * ly + lx), mem[..])
    modifies mem
    ensures ValidDepth(s.depth) ==> ok
    ensures ok ==> Drawn(ValidDepth(s.depth), m0, GlyphFills(TextPen(s, a), origin, letter, 8 * ly + lx + 1), mem[..])
    ensures !ok ==> GlyphFills(TextPen(s, a), origin, letter, 8 * (ly + 1)) != [] && mem[..] == old(mem[..])
  {
    var n := 8 * ly + lx;
    CellStartAt(s, a, origin, ly, lx, out);
    ghost var m1 := mem[..];
    ok := DrawCell(s, mem, a, origin, letter, n, out);
    if !ok {
      GlyphFillsPrefix(TextPen(s, a), origin, letter, n + 1, 8 * (ly + 1));
      return;
    }
    CellStep(ValidDepth(s.depth), TextPen(s, a), origin, letter, n, m0, m1, mem[..]);
  }

  /**
   * The inner glyph loop of fb_write_text: the eight pixels of glyph line
   * `ly`, left to right, from `lineOut`, its top-left byte. `m0` is the
   * memory before the glyph; the lines above have been drawn on it.
   */
  method DrawGlyphLine(s: Screen, mem: array<byte>, a: TextArgs, origin: int, letter: bv64, ly: nat, lineOut: int,
                       ghost m0: seq<byte>)
    returns (ok: bool)
    requires a.scale >= 1 && s.depth * a.scale <= s.lineLen && ly < 8
    requires lineOut == origin + ly * (s.lineLen * a.scale)
    requires ValidDepth(s.depth) ==> AllInside(GlyphFills(TextPen(s, a), origin, letter, GLYPH_CELLS), mem.Length)
    requires Drawn(ValidDepth(s.depth), m0, GlyphFills(TextPen(s, a), origin, letter, 8 * ly), mem[..])
    modifies mem
    ensures ValidDepth(s.depth) ==> ok
    ensures ok ==> Drawn(ValidDepth(s.depth), m0, GlyphFills(TextPen(s, a), origin, letter, 8 * (ly + 1)), mem[..])
    ensures !ok ==> GlyphFills(TextPen(s, a), origin, letter, 8 * (ly + 1)) != [] && mem[..] == old(mem[..])
  {
    ghost var pen := TextPen(s, a);
    var colStep := s.depth * a.scale;
    var pxlxOut := lineOut;
    var lx := 0;
    while lx < 8
      invariant 0 <= lx <= 8
      invariant pxlxOut == lineOut + lx * colStep
      invariant Drawn(ValidDepth(s.depth), m0, GlyphFills(pen, origin, letter, 8 * ly + lx), mem[..])
    {
      ok := DrawGlyphCell(s, mem, a, origin, letter, ly, lx, pxlxOut, m0);
      if !ok {
        return;
      }
      MulSucc(lx, colStep);
      pxlxOut := pxlxOut + colStep;
      lx := lx + 1;
    }
    ok := true;
  }

  /**
   * The two glyph loops of fb_write_text: every pixel of `letter`, in raster
   * order, filled in the foreground colour when its bit is set and in the
   * background colour otherwise if `bg_clear`. At an unsupported depth the
   * first fill aborts and `ok` is false.
   */
  method DrawGlyph(s: Screen, mem: array<byte>, a: TextArgs, origin: int, letter: bv64) returns (ok: bool)
    requires a.scale >= 1 && s.depth * a.scale <= s.lineLen
    requires ValidDepth(s.depth) ==> AllInside(GlyphFills(TextPen(s, a), origin, letter, GLYPH_CELLS), mem.Length)
    modifies mem
    ensures ValidDepth(s.depth) ==> ok
    ensures ok ==> Drawn(ValidDepth(s.depth), old(mem[..]), GlyphFills(TextPen(s, a), origin, letter, GLYPH_CELLS), mem[..])
    ensures !ok ==> GlyphFills(TextPen(s, a), origin, letter, GLYPH_CELLS) != [] && mem[..] == old(mem[..])
  {
    ghost var m0 := mem[..];
    ghost var pen := TextPen(s, a);
    var rowStep := s.lineLen * a.scale;
    var pxlyOut := origin;
    var ly := 0;
    while ly < 8
      invariant 0 <= ly <= 8
      invariant pxlyOut == origin + ly * rowStep
      invariant Drawn(ValidDepth(s.depth), m0, GlyphFills(pen, origin, letter, 8 * ly), mem[..])
    {
      ok := DrawGlyphLine(s, mem, a, origin, letter, ly, pxlyOut, m0);
      if !ok {
        GlyphFillsPrefix(pen, origin, letter, 8 * (ly + 1), GLYPH_CELLS);
        return;
      }
      MulSucc(ly, rowStep);
      pxlyOut := pxlyOut + rowStep;
      ly := ly + 1;
    }
    ok := true;
  }

  /** Every fill of letter `c` lies in the mapped memory. */
  predicate LetterInside(s: Screen, a: TextArgs, p: Placement, c: nat)
    requires a.scale >= 1 && c < |a.text|
  {
    AllInside(LetterFills(s, a, p, c), Size(s))
  }

  /** Every fill of every letter lies in the mapped memory. */
  predicate LettersFit(s: Screen, a: TextArgs, p: Placement)
    requires a.scale >= 1
  {
    forall c :: 0 <= c < |a.text| ==> LetterInside(s, a, p, c)
  }

  /** When every fill of the text lies in the mapped memory, so does every fill of each letter. */
  lemma InsideLetters(s: Screen, a: TextArgs, p: Placement)
    requires a.scale >= 1 && AllInside(TextFills(s, a, p, |a.text|), Size(s))
    ensures LettersFit(s, a, p)
  {
    forall c | 0 <= c < |a.text|
      ensures LetterInside(s, a, p, c)
    {
      TextFillsSnoc(s, a, p, c);
      TextFillsPrefix(s, a, p, c + 1, |a.text|);
      AllInsideInfix(TextFills(s, a, p, c), LetterFills(s, a, p, c), TextFills(s, a, p, |a.text|), Size(s));
    }
  }

  /** Under the intended checks every letter's glyph fits the screen. */
  lemma CheckedLettersFit(s: Screen, a: TextArgs, p: Placement)
    requires Valid(s) && s.depth >= 1 && CheckedLayout(s, a) == Ok(p)
    ensures LettersFit(s, a, p)
  {
    forall c | 0 <= c < |a.text|
      ensures LetterInside(s, a, p, c)
    {
      LetterOnScreen(s, a, p, c);
      GlyphInBox(TextPen(s, a), CursorAt(s, a.scale, p, c).out, Glyph(a.text[c]), GLYPH_CELLS, Size(s));
    }
  }

  /** One letter's fills fit a buffer at least as large as the screen. */
  lemma LetterFits(s: Screen, a: TextArgs, p: Placement, c: nat, n: int)
    requires a.scale >= 1 && LettersFit(s, a, p) && c < |a.text| && n >= Size(s)
    ensures AllInside(GlyphFills(TextPen(s, a), CursorAt(s, a.scale, p, c).out, Glyph(a.text[c]), GLYPH_CELLS), n)
  {
    assert LetterInside(s, a, p, c);
  }

  /** Drawing letter `c` after the letters before it draws the first `c + 1` letters. */
  lemma LetterStep(valid: bool, s: Screen, a: TextArgs, p: Placement, c: nat, m0: seq<byte>, m1: seq<byte>, m2: seq<byte>)
    requires a.scale >= 1 && c < |a.text|
    requires Drawn(valid, m0, TextFills(s, a, p, c), m1)
    requires Drawn(valid, m1, GlyphFills(TextPen(s, a), CursorAt(s, a.scale, p, c).out, Glyph(a.text[c]), GLYPH_CELLS), m2)
    ensures Drawn(valid, m0, TextFills(s, a, p, c + 1), m2)
  {
    TextFillsSnoc(s, a, p, c);
    DrawnConcat(valid, m0, TextFills(s, a, p, c), m1, LetterFills(s, a, p, c), m2);
  }

  /** A letter with fills to make leaves the whole text with fills to make. */
  lemma LetterAborts(s: Screen, a: TextArgs, p: Placement, c: nat)
    requires a.scale >= 1 && c < |a.text|
    requires GlyphFills(TextPen(s, a), CursorAt(s, a.scale, p, c).out, Glyph(a.text[c]), GLYPH_CELLS) != []
    ensures TextFills(s, a, p, |a.text|) != []
  {
    TextFillsSnoc(s, a, p, c);
    TextFillsPrefix(s, a, p, c + 1, |a.text|);
  }

  /** One pass of the letter loop of fb_write_text: letter `c` drawn at its cursor after the letters before it. */
  method DrawLetter(s: Screen, mem: array<byte>, a: TextArgs, p: Placement, c: nat, letterOut: int, ghost m0: seq<byte>)
    returns (ok: bool)
    requires a.scale >= 1 && c < |a.text| && s.depth * a.scale <= s.lineLen && mem.Length >= Size(s)
    requires ValidDepth(s.depth) ==> LettersFit(s, a, p)
    requires letterOut == CursorAt(s, a.scale, p, c).out
    requires Drawn(ValidDepth(s.depth), m0, TextFills(s, a, p, c), mem[..])
    modifies mem
    ensures ValidDepth(s.depth) ==> ok
    ensures ok ==> Drawn(ValidDepth(s.depth), m0, TextFills(s, a, p, c + 1), mem[..])
    ensures !ok ==> TextFills(s, a, p, |a.text|) != [] && mem[..] == old(mem[..])
  {
    ghost var m1 := mem[..];
    if ValidDepth(s.depth) {
      LetterFits(s, a, p, c, mem.Length);
    }
    ok := DrawGlyph(s, mem, a, letterOut, Glyph(a.text[c]));
    if !ok {
      LetterAborts(s, a, p, c);
      return;
    }
    LetterStep(ValidDepth(s.depth), s, a, p, c, m0, m1, mem[..]);
  }

  /** The cursor step at the end of the letter loop of fb_write_text. */
  method NextLetter(s: Screen, scale: int, y: int, letterOut: int, row: int) returns (letterOut': int, row': int)
    ensures Cursor(letterOut', row') == Advance(s, scale, y, Cursor(letterOut, row))
  {
    var letterSize := LetterSize(scale);
    var rowHeight := RowHeight(scale);
    letterOut' := letterOut + s.depth * letterSize;
    row' := row;
    var last := s.lineLen * (y + rowHeight * row) + s.depth * (s.width - letterSize);
    if letterOut' > last {
      row' := row + 1;
      letterOut' := s.lineLen * (y + rowHeight * row');
    }
  }

  /** The letter loop of fb_write_text from placement `p`. */
  method DrawText(s: Screen, mem: array<byte>, a: TextArgs, p: Placement) returns (ok: bool)
    requires a.scale >= 1 && (|a.text| > 0 ==> s.depth * a.scale <= s.lineLen) && mem.Length >= Size(s)
    requires ValidDepth(s.depth) ==> LettersFit(s, a, p)
    modifies mem
    ensures ValidDepth(s.depth) ==> ok
    ensures ok ==> Drawn(ValidDepth(s.depth), old(mem[..]), TextFills(s, a, p, |a.text|), mem[..])
    ensures !ok ==> TextFills(s, a, p, |a.text|) != [] && mem[..] == old(mem[..])
  {
    ghost var m0 := mem[..];
    var letterOut := Offset(s, p.x, p.y, 0);
    var row := 0;
    var c := 0;
    while c < |a.text|
      invariant 0 <= c <= |a.text|
      invariant Cursor(letterOut, row) == CursorAt(s, a.scale, p, c)
      invariant Drawn(ValidDepth(s.depth), m0, TextFills(s, a, p, c), mem[..])
      invariant ValidDepth(s.depth) ==> LettersFit(s, a, p)
    {
      ok := DrawLetter(s, mem, a, p, c, letterOut, m0);
      if !ok {
        return;
      }
      letterOut, row := NextLetter(s, a.scale, p.y, letterOut, row);
      c := c + 1;
    }
    ok := true;
  }

  /**
   * fb_write_text as written: when the checks as written fail nothing is
   * drawn; otherwise the glyph of every letter is drawn at its cursor, in
   * the order of `TextFills`. At an unsupported depth the first fill aborts.
   * Inputs on which the C code's behaviour is undefined are excluded: the
   * arithmetic of `Err(Undefined)` and, at a supported depth, a fill that
   * reaches outside the mapped memory.
   */
  method FbWriteText(s: Screen, mem: array<byte>, a: TextArgs) returns (status: Status)
    requires Valid(s) && mem.Length == Size(s) && Layout(s, a) != Err(Undefined)
    requires Layout(s, a).Ok? && ValidDepth(s.depth) ==>
      AllInside(TextFills(s, a, Layout(s, a).value, |a.text|), Size(s))
    modifies mem
    ensures Layout(s, a).Err? ==> status == Failure && mem[..] == old(mem[..])
    ensures Layout(s, a).Ok? ==>
      var fills := TextFills(s, a, Layout(s, a).value, |a.text|);
      if ValidDepth(s.depth) then
        status == Success && AllWellFormed(fills) && mem[..] == ApplyFills(old(mem[..]), fills)
      else
        mem[..] == old(mem[..]) && (status == Success <==> fills == []) && (status == Aborted <==> fills != [])
  {
    var placed := Layout(s, a);
    if placed.Err? {
      return Failure;
    }
    PenFits(s, a);
    if ValidDepth(s.depth) {
      InsideLetters(s, a, placed.value);
    }
    var ok := DrawText(s, mem, a, placed.value);
    status := if ok then Success else Aborted;
  }

  /**
   * fb_write_text with the checks as intended (`CheckedLayout`): every text
   * they accept is drawn inside the mapped memory, so only the arithmetic
   * of `Err(Undefined)` is excluded.
   */
  method CheckedWriteText(s: Screen, mem: array<byte>, a: TextArgs) returns (status: Status)
    requires Valid(s) && mem.Length == Size(s) && CheckedLayout(s, a) != Err(Undefined)
    modifies mem
    ensures CheckedLayout(s, a).Err? ==> status == Failure && mem[..] == old(mem[..])
    ensures CheckedLayout(s, a).Ok? ==>
      var fills := TextFills(s, a, CheckedLayout(s, a).value, |a.text|);
      if ValidDepth(s.depth) then
        status == Success && AllWellFormed(fills) && mem[..] == ApplyFills(old(mem[..]), fills)
      else
        mem[..] == old(mem[..]) && (status == Success <==> fills == []) && (status == Aborted <==> fills != [])
  {
    var checked := CheckedLayout(s, a);
    if checked.Err? {
      return Failure;
    }
    PenFits(s, a);
    if ValidDepth(s.depth) {
      CheckedLettersFit(s, a, checked.value);
    }
    var ok := DrawText(s, mem, a, checked.value);
    status := if ok then Success else Aborted;
  }

  // ---------------------------------------------------------------------
  // Two inputs the checks as written let through

  /** An 800x480 screen at two bytes per pixel. */
  function Wvga(): (s: Screen)
    ensures Valid(s) && Size(s) == 768000
  {
    Screen(800, 480, 2, 1600)
  }

  /** "A" in white at (x, y), with neither alignment nor background. */
  function LetterA(x: int, y: int): (a: TextArgs)
    ensures |a.text| == 1 && a.scale == 1 && Glyph(a.text[0]) == 0x0033333f33331e0c
  {
    TextArgs([65], 1, false, 0, 0xffff, x, y, None, None)
  }

  /**
   * The bounds check compares `y` with the width: "A" at y = 600, below
   * the bottom edge of the 480 lines, passes every check as written; the
   * intended check refuses it.
   */
  lemma BoundsCheckUsesWidth()
    ensures Layout(Wvga(), LetterA(0, 600)) == Ok(Placement(0, 600))
    ensures CheckedLayout(Wvga(), LetterA(0, 600)) == Err(OutOfBounds)
  {
    var s, a, p := Wvga(), LetterA(0, 600), Placement(0, 600);
    assert PerRow(s, 1) == 100;
    assert Align(s, a) == Ok(p);
    assert U32(480 - 600) == 4294967176;
    assert U32(429496717 - 1) * 100 == 42949671600;
    assert U32(42949671600) == 4294965936;
    assert U32(4294965936 + 100) == 4294966036;
    assert Capacity(s, 1, p) == 4294966036;
  }

  /** Drawn there, the third pixel of the top line of "A" lies past the end of the mapped memory. */
  lemma BoundsCheckOverruns()
    ensures exists f :: f in TextFills(Wvga(), LetterA(0, 600), Placement(0, 600), 1) && !Inside(f, Size(Wvga()))
  {
    var s, a, p := Wvga(), LetterA(0, 600), Placement(0, 600);
    assert GlyphBit(Glyph(a.text[0]), 2);
    LetterPaints(s, a, p, 0, 2);
    assert !Inside(CellCmd(TextPen(s, a), 960000, 2, 0xffff), Size(s));
  }

  /**
   * The capacity check wraps around when no row fits below `y`: for "A" at
   * (8, 475) `max_rows - 1` is 2^32 - 1 and the capacity comes to 2^32 - 1
   * letters, so the text passes; the intended check refuses it.
   */
  lemma CapacityWraps()
    ensures Capacity(Wvga(), 1, Placement(8, 475)) == TWO_32 - 1
    ensures Layout(Wvga(), LetterA(8, 475)) == Ok(Placement(8, 475))
    ensures CheckedLayout(Wvga(), LetterA(8, 475)) == Err(TooLong)
  {
    var s, a, p := Wvga(), LetterA(8, 475), Placement(8, 475);
    assert PerRow(s, 1) == 100;
    assert Align(s, a) == Ok(p);
    assert U32(480 - 475) == 5;
    assert U32(0 - 1) * 100 == 429496729500;
    assert U32(429496729500) == 4294967196;
    assert U32(4294967196 + 99) == TWO_32 - 1;
    assert Capacity(s, 1, p) == TWO_32 - 1;
  }

  /** Drawn there, the first pixel of the seventh line of "A" lies past the end of the mapped memory. */
  lemma CapacityOverruns()
    ensures exists f :: f in TextFills(Wvga(), LetterA(8, 475), Placement(8, 475), 1) && !Inside(f, Size(Wvga()))
  {
    var s, a, p := Wvga(), LetterA(8, 475), Placement(8, 475);
    assert GlyphBit(Glyph(a.text[0]), 48);
    LetterPaints(s, a, p, 0, 48);
    assert !Inside(CellCmd(TextPen(s, a), 760016, 48, 0xffff), Size(s));
  }
}
