/**
 * The older framebuffer renderer (fb_text2screen.c). It shares the font,
 * the colour conversion and the shape of the glyph loop with the newer one,
 * but:
 *  - it keeps no line length: a pixel row is `depth * width` bytes after the
 *    one above, whatever the mapping's real line length;
 *  - letters are drawn in one colour, with no background;
 *  - the bounds check comes before the scale check;
 *  - an alignment, when given, is only checked against `x` and `y`, and is
 *    otherwise ignored;
 *  - each row after the first starts at line `row * row_height` of the
 *    screen, not `y + row * row_height`.
 * The glyph loop is the newer renderer's, taken on the screen with packed
 * rows; the letter loop steps its own cursor.
 */
module FbText2Screen {
  import opened Machine
  import opened Raster
  import opened Font
  import T = Text2Screen

  /**
   * The geometry `fb_init` reads (`fb_t`): the mapping has `size` bytes
   * (`line_length * yres`); pixels are addressed `depth * width` bytes per row.
   */
  datatype Screen = Screen(width: int, height: int, depth: nat, size: nat)

  /**
   * What the driver guarantees: `width` and `height` fit an `int`, the rows
   * of pixels fit the mapping, and the mapping's size fits a `ptrdiff_t`.
   */
  predicate Valid(s: Screen) {
    0 <= s.width < TWO_31 && 0 <= s.height < TWO_31 && s.depth * s.width * s.height <= s.size < TWO_31
  }

  /** The screen as the old code addresses it: the newer geometry with `line_len = depth * width`. */
  function Packed(s: Screen): (r: T.Screen)
    requires Valid(s)
    ensures T.Valid(r) && T.Size(r) <= s.size
    ensures r.width == s.width && r.height == s.height && r.depth == s.depth && r.lineLen == s.depth * s.width
  {
    T.Screen(s.width, s.height, s.depth, s.depth * s.width)
  }

  /** The arguments of the old `fb_write_text`: one colour, no background. */
  datatype Args = Args(
    text: seq<byte>, scale: int, color: bv32, x: int, y: int, halign: Option<string>, valign: Option<string>)

  /** The same letters as the newer renderer's arguments: foreground only, no alignment. */
  function AsNew(a: Args): (r: T.TextArgs)
    ensures r.text == a.text && r.scale == a.scale && r.fgColor == a.color && !r.bgClear
    ensures r.x == a.x && r.y == a.y && r.halign.None? && r.valign.None?
  {
    T.TextArgs(a.text, a.scale, false, 0, a.color, a.x, a.y, None, None)
  }

  /** The bounds test as written: `y` is compared with the width. */
  predicate OutOfBounds(s: Screen, x: int, y: int) {
    x < 0 || x > s.width || y < 0 || y > s.width
  }

  /**
   * The checks of the old fb_write_text as written. The bounds come first;
   * an alignment is an error only next to a non-zero coordinate, never for
   * its name, and never moves the text; the capacity is the newer
   * renderer's wrapped-around `Capacity`.
   */
  function Layout(s: Screen, a: Args): (r: Result<T.Placement, T.TextError>)
    requires Valid(s)
    ensures r == Err(T.OutOfBounds) <==> OutOfBounds(s, a.x, a.y)
    ensures r == Err(T.InvalidScale) <==> !OutOfBounds(s, a.x, a.y) && a.scale < 1
    ensures r != Err(T.InvalidHAlign) && r != Err(T.InvalidVAlign)
    ensures r == Err(T.HAlignWithX) ==> a.x != 0 && a.halign.Some?
    ensures r == Err(T.VAlignWithY) ==> a.y != 0 && a.valign.Some?
    ensures r.Ok? ==> r.value == T.Placement(a.x, a.y) && 1 <= a.scale && T.LetterSize(a.scale) < TWO_31
    ensures r.Ok? ==> |a.text| <= T.Capacity(Packed(s), a.scale, r.value)
    ensures r.Ok? ==> (a.halign.Some? ==> a.x == 0) && (a.valign.Some? ==> a.y == 0)
  {
    if OutOfBounds(s, a.x, a.y) then Err(T.OutOfBounds)
    else if a.scale < 1 then Err(T.InvalidScale)
    else if T.LetterSize(a.scale) >= TWO_31 then Err(T.Undefined)
    else if a.x != 0 && a.halign.Some? then Err(T.HAlignWithX)
    else if a.y != 0 && a.valign.Some? then Err(T.VAlignWithY)
    else if |a.text| > T.Capacity(Packed(s), a.scale, T.Placement(a.x, a.y)) then Err(T.TooLong)
    else Ok(T.Placement(a.x, a.y))
  }

  /** The checks as evidently intended: `y` against the height, and the capacity in exact arithmetic. */
  function CheckedLayout(s: Screen, a: Args): (r: Result<T.Placement, T.TextError>)
    requires Valid(s)
    ensures r.Ok? ==> r.value == T.Placement(a.x, a.y) && 1 <= a.scale && T.LetterSize(a.scale) < TWO_31
    ensures r.Ok? ==> 0 <= a.x <= s.width && 0 <= a.y <= s.height
    ensures r.Ok? ==> |a.text| <= T.ExactCapacity(Packed(s), a.scale, r.value)
    ensures r.Ok? ==> (a.halign.Some? ==> a.x == 0) && (a.valign.Some? ==> a.y == 0)
  {
    if a.x < 0 || a.x > s.width || a.y < 0 || a.y > s.height then Err(T.OutOfBounds)
    else if a.scale < 1 then Err(T.InvalidScale)
    else if T.LetterSize(a.scale) >= TWO_31 then Err(T.Undefined)
    else if a.x != 0 && a.halign.Some? then Err(T.HAlignWithX)
    else if a.y != 0 && a.valign.Some? then Err(T.VAlignWithY)
    else if |a.text| > T.ExactCapacity(Packed(s), a.scale, T.Placement(a.x, a.y)) then Err(T.TooLong)
    else Ok(T.Placement(a.x, a.y))
  }

  /**
   * A text the intended checks accept is one the newer renderer's intended
   * checks accept at the same place, drawn on the packed screen, unless it
   * is empty on a screen narrower than one letter: the newer renderer then
   * divides by a zero `max_chars_per_row`, which the older one never does.
   */
  lemma CheckedMatchesNew(s: Screen, a: Args)
    requires Valid(s) && CheckedLayout(s, a).Ok?
    ensures |a.text| > 0 || T.PerRow(Packed(s), a.scale) >= 1 ==>
      T.CheckedLayout(Packed(s), AsNew(a)) == CheckedLayout(s, a)
    ensures T.PerRow(Packed(s), a.scale) == 0 ==>
      |a.text| == 0 && T.CheckedLayout(Packed(s), AsNew(a)) == Err(T.Undefined)
  {
    var ps, na, p := Packed(s), AsNew(a), CheckedLayout(s, a).value;
    var ls, m := T.LetterSize(a.scale), s.width / T.LetterSize(a.scale);
    var maxRows, q := (s.height - a.y) / T.RowHeight(a.scale), (s.width - a.x) / ls;
    assert T.ExactCapacity(ps, a.scale, p) == (maxRows - 1) * m + q;
    DivLe(s.width - a.x, ls, q);
    DivLe(s.width, ls, q);
    assert q <= m;
    if m >= 1 {
      assert T.AlignX(ps, na) == Some(a.x) && T.AlignY(ps, na) == Some(a.y);
      assert T.Align(ps, na) == Ok(p);
    } else {
      assert T.Align(ps, na) == Err(T.Undefined);
    }
  }

  /** Under the intended checks every fill of the glyph loop lies in the mapped memory. */
  lemma TextFillsInside(s: Screen, a: Args)
    requires Valid(s) && s.depth >= 1 && CheckedLayout(s, a).Ok?
    ensures AllInside(T.TextFills(Packed(s), AsNew(a), CheckedLayout(s, a).value, |a.text|), s.size)
  {
    var p := CheckedLayout(s, a).value;
    if |a.text| > 0 {
      CheckedMatchesNew(s, a);
      T.TextFillsInside(Packed(s), AsNew(a), p);
      forall i | 0 <= i < |T.TextFills(Packed(s), AsNew(a), p, |a.text|)|
        ensures Inside(T.TextFills(Packed(s), AsNew(a), p, |a.text|)[i], s.size)
      {
        assert Inside(T.TextFills(Packed(s), AsNew(a), p, |a.text|)[i], T.Size(Packed(s)));
      }
    } else {
      assert T.Letters(Packed(s), AsNew(a), p)[..0] == [];
    }
  }

  // ---------------------------------------------------------------------
  // The letter cursor as written

  /**
   * The step after each letter as written: `last_letter_in_row` is the last
   * slot of screen line `row * row_height`, and the next row starts at
   * column 0 of line `(row + 1) * row_height`; `y` plays no part.
   */
  function Advance(s: Screen, scale: int, cur: T.Cursor): T.Cursor {
    var next := cur.out + s.depth * T.LetterSize(scale);
    var last := s.depth * (s.width * (T.RowHeight(scale) * cur.row + 1) - T.LetterSize(scale));
    if next > last then T.Cursor(s.depth * s.width * T.RowHeight(scale) * (cur.row + 1), cur.row + 1)
    else T.Cursor(next, cur.row)
  }

  /** The cursor before letter `c` as written; the first letter starts at `depth * (width * y + x)`. */
  function CursorAt(s: Screen, scale: int, p: T.Placement, c: nat): T.Cursor {
    if c == 0 then T.Cursor(s.depth * (s.width * p.y + p.x), 0)
    else Advance(s, scale, CursorAt(s, scale, p, c - 1))
  }

  /** At the top of the screen one step of the cursor as written is the intended one. */
  lemma AdvanceAtTop(s: Screen, scale: int, cur: T.Cursor)
    requires Valid(s)
    ensures Advance(s, scale, cur) == T.Advance(Packed(s), scale, 0, cur)
  {
    RowArith(s.depth, s.width, T.LetterSize(scale), T.RowHeight(scale), cur.row);
  }

  /** The two row formulas agree when `y` is 0. */
  lemma RowArith(D: int, W: int, ls: int, rh: int, row: int)
    ensures D * (W * (rh * row + 1) - ls) == (D * W) * (0 + rh * row) + D * (W - ls)
    ensures D * W * rh * (row + 1) == (D * W) * (0 + rh * (row + 1))
  {
    var k := rh * row;
    assert W * (k + 1) == W * k + W;
    assert D * (W * k + W - ls) == D * (W * k) + D * (W - ls);
    assert D * (W * k) == (D * W) * k;
    assert D * W * rh * (row + 1) == (D * W) * (rh * (row + 1));
  }

  /** For a text that starts at the top of the screen, the cursor as written is the intended one. */
  lemma {:induction false} CursorAtTop(s: Screen, scale: int, x: int, c: nat)
    requires Valid(s)
    ensures CursorAt(s, scale, T.Placement(x, 0), c) == T.CursorAt(Packed(s), scale, T.Placement(x, 0), c)
  {
    if c > 0 {
      CursorAtTop(s, scale, x, c - 1);
      AdvanceAtTop(s, scale, CursorAt(s, scale, T.Placement(x, 0), c - 1));
    }
  }

  /** The fills of letter `c` from the cursor as written. */
  function LetterFills(s: Screen, a: Args, p: T.Placement, c: nat): seq<FillCmd>
    requires a.scale >= 1 && c < |a.text| && Valid(s)
  {
    GlyphFills(T.TextPen(Packed(s), AsNew(a)), CursorAt(s, a.scale, p, c).out, Glyph(a.text[c]), GLYPH_CELLS)
  }

  /** The fills of every letter from the cursor as written, letter by letter. */
  function Letters(s: Screen, a: Args, p: T.Placement): (r: seq<seq<FillCmd>>)
    requires a.scale >= 1 && Valid(s)
    ensures |r| == |a.text|
    ensures forall c :: 0 <= c < |r| ==> r[c] == LetterFills(s, a, p, c)
  {
    seq(|a.text|, c requires 0 <= c < |a.text| => LetterFills(s, a, p, c))
  }

  /** The fills the glyph loop as written makes for the first `c` letters, in order. */
  function TextFills(s: Screen, a: Args, p: T.Placement, c: nat): seq<FillCmd>
    requires a.scale >= 1 && Valid(s) && c <= |a.text|
  {
    Flatten(Letters(s, a, p)[..c])
  }

  /** The fills of earlier letters come first. */
  lemma TextFillsPrefix(s: Screen, a: Args, p: T.Placement, c: nat, c': nat)
    requires a.scale >= 1 && Valid(s) && c <= c' <= |a.text|
    ensures TextFills(s, a, p, c) <= TextFills(s, a, p, c')
  {
    FlattenPrefix(Letters(s, a, p), c, c');
  }

  /** Letter `c` adds its glyph's fills. */
  lemma TextFillsSnoc(s: Screen, a: Args, p: T.Placement, c: nat)
    requires a.scale >= 1 && Valid(s) && c < |a.text|
    ensures TextFills(s, a, p, c + 1) == TextFills(s, a, p, c) + LetterFills(s, a, p, c)
  {
    FlattenSnoc(Letters(s, a, p), c);
  }

  /** For a text that starts at the top of the screen, the fills as written are the intended ones. */
  lemma TextFillsAtTop(s: Screen, a: Args, x: int)
    requires Valid(s) && a.scale >= 1
    ensures TextFills(s, a, T.Placement(x, 0), |a.text|) == T.TextFills(Packed(s), AsNew(a), T.Placement(x, 0), |a.text|)
  {
    var p := T.Placement(x, 0);
    forall c | 0 <= c < |a.text|
      ensures Letters(s, a, p)[c] == T.Letters(Packed(s), AsNew(a), p)[c]
    {
      CursorAtTop(s, a.scale, x, c);
    }
    assert Letters(s, a, p) == T.Letters(Packed(s), AsNew(a), p);
  }

  /** Every fill of letter `c`, from the cursor as written, lies in the mapped memory. */
  predicate LetterInside(s: Screen, a: Args, p: T.Placement, c: nat)
    requires a.scale >= 1 && Valid(s) && c < |a.text|
  {
    AllInside(LetterFills(s, a, p, c), s.size)
  }

  /** Every fill of every letter, from the cursor as written, lies in the mapped memory. */
  predicate LettersFit(s: Screen, a: Args, p: T.Placement)
    requires a.scale >= 1 && Valid(s)
  {
    forall c :: 0 <= c < |a.text| ==> LetterInside(s, a, p, c)
  }

  /** When every fill of the text lies in the mapped memory, so does every fill of each letter. */
  lemma InsideLetters(s: Screen, a: Args, p: T.Placement)
    requires a.scale >= 1 && Valid(s) && AllInside(TextFills(s, a, p, |a.text|), s.size)
    ensures LettersFit(s, a, p)
  {
    forall c | 0 <= c < |a.text|
      ensures LetterInside(s, a, p, c)
    {
      TextFillsSnoc(s, a, p, c);
      TextFillsPrefix(s, a, p, c + 1, |a.text|);
      AllInsideInfix(TextFills(s, a, p, c), LetterFills(s, a, p, c), TextFills(s, a, p, |a.text|), s.size);
    }
  }

  /**
   * A text the checks as written accept is empty or has a letter's width to
   * spare: with no letter per row the capacity is 0.
   */
  lemma LetterFitsRow(s: Screen, a: Args)
    requires Valid(s) && Layout(s, a).Ok? && |a.text| > 0
    ensures T.PerRow(Packed(s), a.scale) >= 1
  {
    var ps, ls := Packed(s), T.LetterSize(a.scale);
    if T.PerRow(ps, a.scale) == 0 {
      assert U32(s.width - a.x) == s.width - a.x;
      DivModOf(s.width - a.x, ls, 0, s.width - a.x);
    }
  }

  /** Drawing letter `c` after the letters before it draws the first `c + 1` letters. */
  lemma LetterStep(valid: bool, s: Screen, a: Args, p: T.Placement, c: nat, m0: seq<byte>, m1: seq<byte>, m2: seq<byte>)
    requires a.scale >= 1 && Valid(s) && c < |a.text|
    requires Drawn(valid, m0, TextFills(s, a, p, c), m1)
    requires Drawn(valid, m1, LetterFills(s, a, p, c), m2)
    ensures Drawn(valid, m0, TextFills(s, a, p, c + 1), m2)
  {
    TextFillsSnoc(s, a, p, c);
    DrawnConcat(valid, m0, TextFills(s, a, p, c), m1, LetterFills(s, a, p, c), m2);
  }

  /** A letter with fills to make leaves the whole text with fills to make. */
  lemma LetterAborts(s: Screen, a: Args, p: T.Placement, c: nat)
    requires a.scale >= 1 && Valid(s) && c < |a.text| && LetterFills(s, a, p, c) != []
    ensures TextFills(s, a, p, |a.text|) != []
  {
    TextFillsSnoc(s, a, p, c);
    TextFillsPrefix(s, a, p, c + 1, |a.text|);
  }

  // ---------------------------------------------------------------------
  // fb_write_text and fb_clear

  /** One pass of the letter loop of the old fb_write_text: letter `c` drawn at its cursor as written. */
  method DrawLetter(s: Screen, mem: array<byte>, a: Args, p: T.Placement, c: nat, letterOut: int, ghost m0: seq<byte>)
    returns (ok: bool)
    requires Valid(s) && a.scale >= 1 && c < |a.text| && s.depth * a.scale <= s.depth * s.width && mem.Length == s.size
    requires ValidDepth(s.depth) ==> LettersFit(s, a, p)
    requires letterOut == CursorAt(s, a.scale, p, c).out
    requires Drawn(ValidDepth(s.depth), m0, TextFills(s, a, p, c), mem[..])
    modifies mem
    ensures ValidDepth(s.depth) ==> ok
    ensures ok ==> Drawn(ValidDepth(s.depth), m0, TextFills(s, a, p, c + 1), mem[..])
    ensures !ok ==> TextFills(s, a, p, |a.text|) != [] && mem[..] == old(mem[..])
  {
    ghost var m1 := mem[..];
    if ValidDepth(s.depth) {
      assert LetterInside(s, a, p, c);
    }
    ok := T.DrawGlyph(Packed(s), mem, AsNew(a), letterOut, Glyph(a.text[c]));
    if !ok {
      LetterAborts(s, a, p, c);
      return;
    }
    LetterStep(ValidDepth(s.depth), s, a, p, c, m0, m1, mem[..]);
  }

  /** The cursor step at the end of the letter loop of the old fb_write_text, as written. */
  method NextLetter(s: Screen, scale: int, letterOut: int, row: int) returns (letterOut': int, row': int)
    ensures T.Cursor(letterOut', row') == Advance(s, scale, T.Cursor(letterOut, row))
  {
    var letterSize := T.LetterSize(scale);
    var rowHeight := T.RowHeight(scale);
    letterOut' := letterOut + s.depth * letterSize;
    row' := row;
    var last := s.depth * (s.width * (rowHeight * row + 1) - letterSize);
    if letterOut' > last {
      row' := row + 1;
      letterOut' := s.depth * s.width * rowHeight * row';
    }
  }

  /** The letter loop of the old fb_write_text from placement `p`, with the cursor as written. */
  method DrawText(s: Screen, mem: array<byte>, a: Args, p: T.Placement) returns (ok: bool)
    requires Valid(s) && a.scale >= 1 && mem.Length == s.size
    requires |a.text| > 0 ==> s.depth * a.scale <= s.depth * s.width
    requires ValidDepth(s.depth) ==> LettersFit(s, a, p)
    modifies mem
    ensures ValidDepth(s.depth) ==> ok
    ensures ok ==> Drawn(ValidDepth(s.depth), old(mem[..]), TextFills(s, a, p, |a.text|), mem[..])
    ensures !ok ==> TextFills(s, a, p, |a.text|) != [] && mem[..] == old(mem[..])
  {
    ghost var m0 := mem[..];
    var letterOut := s.depth * (s.width * p.y + p.x);
    var row := 0;
    var c := 0;
    while c < |a.text|
      invariant 0 <= c <= |a.text|
      invariant T.Cursor(letterOut, row) == CursorAt(s, a.scale, p, c)
      invariant Drawn(ValidDepth(s.depth), m0, TextFills(s, a, p, c), mem[..])
    {
      ok := DrawLetter(s, mem, a, p, c, letterOut, m0);
      if !ok {
        return;
      }
      letterOut, row := NextLetter(s, a.scale, letterOut, row);
      c := c + 1;
    }
    ok := true;
  }

  /**
   * The old fb_write_text as written: when its checks fail nothing is
   * drawn; otherwise every letter's glyph is drawn in the one colour at the
   * cursor as written, rows `depth * width` bytes apart. At an unsupported
   * depth the first fill aborts. Inputs on which the C code's behaviour is
   * undefined are excluded: the overflow of `scale * 8` and, at a supported
   * depth, a fill that reaches outside the mapped memory.
   */
  method FbWriteText(s: Screen, mem: array<byte>, a: Args) returns (status: Status)
    requires Valid(s) && mem.Length == s.size && Layout(s, a) != Err(T.Undefined)
    requires Layout(s, a).Ok? && ValidDepth(s.depth) ==>
      AllInside(TextFills(s, a, Layout(s, a).value, |a.text|), s.size)
    modifies mem
    ensures Layout(s, a).Err? ==> status == Failure && mem[..] == old(mem[..])
    ensures Layout(s, a).Ok? ==>
      var fills := TextFills(s, a, Layout(s, a).value, |a.text|);
      if ValidDepth(s.depth) then
        status == Success && AllWellFormed(fills) && mem[..] == ApplyFills(old(mem[..]), fills)
      else
        mem[..] == old(mem[..]) && (status == Success <==> fills == []) && (status == Aborted <==> fills != [])
  {
    var placed := Layout(s, a);
    if placed.Err? {
      return Failure;
    }
    if |a.text| > 0 {
      LetterFitsRow(s, a);
      T.PenFits(Packed(s), AsNew(a));
    }
    if ValidDepth(s.depth) {
      InsideLetters(s, a, placed.value);
    }
    var ok := DrawText(s, mem, a, placed.value);
    status := if ok then Success else Aborted;
  }

  /**
   * The old fb_write_text with the checks and the row wrap as intended: on
   * an error nothing is drawn; otherwise every letter's glyph is drawn in
   * the one colour at the intended cursor (next row at `y + row *
   * row_height`), rows `depth * width` bytes apart. Every text the intended
   * checks accept is drawn inside the mapped memory, so only the overflow
   * of `scale * 8` is excluded.
   */
  method CheckedWriteText(s: Screen, mem: array<byte>, a: Args) returns (status: Status)
    requires Valid(s) && mem.Length == s.size && CheckedLayout(s, a) != Err(T.Undefined)
    modifies mem
    ensures CheckedLayout(s, a).Err? ==> status == Failure && mem[..] == old(mem[..])
    ensures CheckedLayout(s, a).Ok? ==>
      var fills := T.TextFills(Packed(s), AsNew(a), CheckedLayout(s, a).value, |a.text|);
      if ValidDepth(s.depth) then
        status == Success && AllWellFormed(fills) && mem[..] == ApplyFills(old(mem[..]), fills)
      else
        mem[..] == old(mem[..]) && (status == Success <==> fills == []) && (status == Aborted <==> fills != [])
  {
    var checked := CheckedLayout(s, a);
    if checked.Err? {
      return Failure;
    }
    if |a.text| > 0 {
      CheckedMatchesNew(s, a);
      T.PenFits(Packed(s), AsNew(a));
      if ValidDepth(s.depth) {
        T.CheckedLettersFit(Packed(s), AsNew(a), checked.value);
      }
    }
    var ok := T.DrawText(Packed(s), mem, AsNew(a), checked.value);
    status := if ok then Success else Aborted;
  }

  /**
   * fb_clear: the newer renderer's defaults, normalization and checks; the
   * rectangle starts at `depth * (width * y + x)` and its rows are
   * `depth * width` bytes apart.
   */
  method FbClear(s: Screen, mem: array<byte>, color: bv32, x: int, y: int, width: int, height: int)
    returns (status: Status)
    requires Valid(s) && mem.Length == s.size
    modifies mem
    ensures T.ClearArea(Packed(s), x, y, width, height).None? ==> status == Failure && mem[..] == old(mem[..])
    ensures T.ClearArea(Packed(s), x, y, width, height).Some? ==>
      var r := T.ClearArea(Packed(s), x, y, width, height).value;
      var f := T.ClearFill(Packed(s), r, color);
      f.start == s.depth * (s.width * r.y + r.x) && f.stride == s.depth * s.width &&
      if ValidDepth(s.depth) then
        status == Success && mem[..] == FillSpec(old(mem[..]), f)
      else
        mem[..] == old(mem[..]) &&
        (status == Success <==> r.width == 0 || r.height == 0) &&
        (status == Aborted <==> r.width > 0 && r.height > 0)
  {
    var area := T.ClearArea(Packed(s), x, y, width, height);
    if area.Some? {
      var r := area.value;
      assert (s.depth * s.width) * r.y + s.depth * r.x == s.depth * (s.width * r.y + r.x);
    }
    status := T.FbClear(Packed(s), mem, color, x, y, width, height);
  }

  // ---------------------------------------------------------------------
  // Inputs the old code as written gets wrong

  /** An 80x15 screen at two bytes per pixel with packed rows. */
  function Small(): (s: Screen)
    ensures Valid(s)
  {
    Screen(80, 15, 2, 2400)
  }

  /** "AA" in white at (0, 1). */
  function TwoLetters(): (a: Args)
    ensures |a.text| == 2 && a.scale == 1 && Glyph(a.text[1]) == 0x0033333f33331e0c
  {
    Args([65, 65], 1, 0xffff, 0, 1, None, None)
  }

  /**
   * The row wrap ignores `y`: "AA" at (0, 1) on an 80x15 screen passes both
   * the checks as written and as intended, but the cursor as written sends
   * the second letter to line 10 of the next row where it should follow the
   * first on line 1, and the seventh line of that glyph lies past the end
   * of the 2400 mapped bytes.
   */
  lemma WrapIgnoresY()
    ensures Layout(Small(), TwoLetters()) == CheckedLayout(Small(), TwoLetters()) == Ok(T.Placement(0, 1))
    ensures CursorAt(Small(), 1, T.Placement(0, 1), 1) == T.Cursor(1600, 1)
    ensures T.CursorAt(Packed(Small()), 1, T.Placement(0, 1), 1) == T.Cursor(176, 0)
  {
    var s, a, p := Small(), TwoLetters(), T.Placement(0, 1);
    assert U32(15 - 1) == 14 && U32(80 - 0) == 80;
    assert U32(U32(0) * 10) == 0 && U32(0 + 10) == 10;
    assert T.Capacity(Packed(s), 1, p) == 10;
    assert T.ExactCapacity(Packed(s), 1, p) == 10;
    assert CursorAt(s, 1, p, 0) == T.Cursor(160, 0);
  }

  /** The second letter of that text, drawn from the cursor as written, runs past the mapped memory. */
  lemma WrapOverruns()
    ensures exists f :: f in LetterFills(Small(), TwoLetters(), T.Placement(0, 1), 1) && !Inside(f, Small().size)
  {
    WrapIgnoresY();
    var s, a := Small(), TwoLetters();
    var pen := T.TextPen(Packed(s), AsNew(a));
    assert GlyphBit(Glyph(a.text[1]), 48);
    GlyphPaints(pen, 1600, Glyph(a.text[1]), 48);
    assert !Inside(CellCmd(pen, 1600, 48, 0xffff), s.size);
  }

  /** An 800x480 screen at two bytes per pixel with packed rows. */
  function Wvga(): (s: Screen)
    ensures Valid(s)
  {
    Screen(800, 480, 2, 768000)
  }

  /** "A" in white at (x, y). */
  function LetterA(x: int, y: int): (a: Args)
    ensures |a.text| == 1 && a.scale == 1 && Glyph(a.text[0]) == 0x0033333f33331e0c
  {
    Args([65], 1, 0xffff, x, y, None, None)
  }

  /**
   * As in the newer renderer, the bounds check compares `y` with the width:
   * "A" at y = 600 on an 800x480 screen passes, and its glyph lies past the
   * end of the mapped memory; the intended check refuses it.
   */
  lemma BoundsCheckUsesWidth()
    ensures Layout(Wvga(), LetterA(0, 600)) == Ok(T.Placement(0, 600))
    ensures CheckedLayout(Wvga(), LetterA(0, 600)) == Err(T.OutOfBounds)
  {
    var s, a, p := Wvga(), LetterA(0, 600), T.Placement(0, 600);
    assert U32(480 - 600) == 4294967176;
    assert U32(429496717 - 1) * 100 == 42949671600;
    assert U32(42949671600) == 4294965936;
    assert U32(4294965936 + 100) == 4294966036;
    assert T.Capacity(Packed(s), 1, p) == 4294966036;
  }

  /** "A" at y = 600 on that screen starts past the end of the mapped memory. */
  lemma BoundsCheckOverruns()
    ensures exists f :: f in LetterFills(Wvga(), LetterA(0, 600), T.Placement(0, 600), 0) && !Inside(f, Wvga().size)
  {
    var s, a := Wvga(), LetterA(0, 600);
    var pen := T.TextPen(Packed(s), AsNew(a));
    assert GlyphBit(Glyph(a.text[0]), 2);
    GlyphPaints(pen, 960000, Glyph(a.text[0]), 2);
    assert !Inside(CellCmd(pen, 960000, 2, 0xffff), s.size);
  }

  /**
   * As in the newer renderer, the capacity wraps around when no row fits
   * below `y`: "A" at (8, 475) passes, and the seventh line of its glyph
   * lies past the end of the mapped memory; the intended check refuses it.
   */
  lemma CapacityWraps()
    ensures Layout(Wvga(), LetterA(8, 475)) == Ok(T.Placement(8, 475))
    ensures CheckedLayout(Wvga(), LetterA(8, 475)) == Err(T.TooLong)
  {
    var s, a, p := Wvga(), LetterA(8, 475), T.Placement(8, 475);
    assert U32(480 - 475) == 5;
    assert U32(0 - 1) * 100 == 429496729500;
    assert U32(429496729500) == 4294967196;
    assert U32(4294967196 + 99) == TWO_32 - 1;
    assert T.Capacity(Packed(s), 1, p) == TWO_32 - 1;
  }

  /** The seventh line of "A" at (8, 475) on that screen lies past the end of the mapped memory. */
  lemma CapacityOverruns()
    ensures exists f :: f in LetterFills(Wvga(), LetterA(8, 475), T.Placement(8, 475), 0) && !Inside(f, Wvga().size)
  {
    var s, a := Wvga(), LetterA(8, 475);
    var pen := T.TextPen(Packed(s), AsNew(a));
    assert GlyphBit(Glyph(a.text[0]), 48);
    GlyphPaints(pen, 760016, Glyph(a.text[0]), 48);
    assert !Inside(CellCmd(pen, 760016, 48, 0xffff), s.size);
  }
}
