# text2screen and open-wlan-cal byte layouts in Dafny

This project models three pieces of a Maemo/N900-era tool set.

- **text2screen.c, the newer framebuffer renderer.** It converts colours between RGB888 and RGB565 and fills rectangles of the mapped framebuffer memory. `fb_clear` clears part of the screen. `fb_write_text` aligns, wraps and draws a string in a scaled 8x8 bitmap font, with an optional background.
- **fb_text2screen.c, the older renderer.** It has one text colour and no background. Its pixel rows are `depth * width` bytes apart. It checks its arguments in a different order, and after a row wrap it restarts at line `row * row_height` of the screen.
- **src/open-wlan-cal.c, the calibration record layouts.** These are the parts of `set_mac`, `set_iq_values` and `set_tx_curve` that turn a CAL block payload into the fixed-size record written to the WLAN driver's sysfs files.

Modules:

| module | file | what it is |
|---|---|---|
| `Machine` | machine.dfy | the C integer widths (`U32`, `ToInt32`), little-endian stores, `Option`/`Result`, and small arithmetic lemmas |
| `Color` | color.dfy | `rgb_888_to_565` and `rgb_565_to_888` on `bv32`/`bv16` |
| `Raster` | raster.dfy | the meaning of one `fill` call (`FillSpec`), the loop that performs it (`FillRect`), and sequences of fills (`ApplyFills`, `Drawn`) |
| `Font` | font.dfy | the `alphabet` table and the fills one glyph produces |
| `Text2Screen` | text2screen.dfy | the newer renderer: `normalize`, `fb_clear`, the checks and alignment of `fb_write_text`, its cursor and its triple glyph loop |
| `FbText2Screen` | fb_text2screen.dfy | the older renderer, in terms of the newer one on a screen whose line length is `depth * width` |
| `WlanCal` | wlan_cal.dfy | `set_mac`, `set_iq_values` and `set_tx_curve` as array methods proved against closed-form records |

How the memory is modelled:

- The screen is the mapped memory, an `array<byte>`. For the newer renderer it comes with the geometry `fb_init` reads: width, height, bytes per pixel and line length.
- The older renderer's screen holds width, height, bytes per pixel and the size of the mapping, and no line length. `FbText2Screen.Packed` turns it into a newer screen whose line length is `depth * width`, the row step of the old loops.
- A `fill` is a `FillCmd` value (start, stride, depth, colour, width, height). `FillSpec` gives the memory after it.
- The drawing methods change the array in loops that mirror the C loops. They are proved equal to `ApplyFills` over the sequence of fills that the specification function `TextFills` lists.
- A `fill` at an unsupported depth aborts the process before its first store. This is the `Aborted` status, or `ok == false`, and memory is then unchanged.
- An error return of the C code is `Failure`. A failed length `assert` in open-wlan-cal is `None`.

## Model

| member | source | states |
|---|---|---|
| Machine.U32 | text2screen.c:199-200 | the value of an `unsigned int` expression: below 2^32, a multiple of 2^32 away from the exact value, and equal to it in range |
| Machine.ToInt32 | text2screen.c:175-188 | an `unsigned int` stored in an `int`: a 32-bit signed value with the same 32 bits, equal to the input below 2^31 |
| Machine.Le16 | text2screen.c:81-82 | a 16-bit store writes two bytes, lowest address first |
| Machine.Le32 | text2screen.c:83-84 | a 32-bit store writes four bytes, lowest address first |
| Color.Red | text2screen.c:59 | the red byte of a 0xRRGGBB colour, bits 23..16 |
| Color.Green | text2screen.c:60 | the green byte, bits 15..8 |
| Color.Blue | text2screen.c:61 | the blue byte, bits 7..0 |
| Color.Rgb888To565 | text2screen.c:57-62 | bits 15..11 of the result are the top five bits of red, bits 10..5 the top six of green, bits 4..0 the top five of blue |
| Color.Rgb565To888 | text2screen.c:64-69 | the widened colour is below 2^24; its red, green and blue bytes carry the 565 fields in their top bits, with the low 3, 2 and 3 bits zero |
| Color.AlphaIgnored | text2screen.c:57-62 | the top (alpha) byte of the 32-bit colour has no effect on the 565 value |
| Color.Rgb565RoundTrip | text2screen.c:57-69 | narrowing the widened colour gives back every 16-bit colour unchanged |
| Raster.PixelBytes | text2screen.c:81-84 | a pixel store at a supported depth writes exactly `depth` bytes |
| Raster.FillSpec | text2screen.c:75-93 | the memory after a fill has the same size as before |
| Raster.Covers | text2screen.c:78-90 | byte `k` lies in one of the `height` rows of a fill, among the bytes of its first `width` pixels |
| Raster.Store | text2screen.c:81-84 | one pixel store writes the given bytes from offset `p` and leaves every other byte as it was |
| Raster.ApplyFills | text2screen.c:210-238 | a sequence of fills performed in order, each on the memory the earlier ones left; the memory keeps its size |
| Raster.PixelLocation | text2screen.c:78-90 | byte `b` of pixel (i, j) of a fill sits at `start + j*stride + i*depth + b`, and this offset decodes back to row j, column i, lane b |
| Raster.Decompose | text2screen.c:78-91 | every offset splits into a row of the stride, a column of the depth and a lane below the depth |
| Raster.FillWritesRectangle | text2screen.c:78-91 | after a fill, byte `b` of every pixel of the width x height rectangle holds byte `b` of the pixel's colour |
| Raster.FillChangesOnlyRectangle | text2screen.c:78-91 | a byte a fill changes is a byte of a pixel of its rectangle |
| Raster.PixelInside | text2screen.c:78-91 | a fill that fits the memory keeps every one of its pixels inside it |
| Raster.FillRect | text2screen.c:75-93 | `fill`: it succeeds iff the depth is 2 or 4 or the rectangle is empty; on success memory equals `FillSpec`; at any other depth nothing is written |
| Raster.ApplyFillsUntouched | text2screen.c:210-238 | a byte that no fill of a sequence covers keeps its value |
| Raster.ApplyFillsLastWriter | text2screen.c:210-238 | a byte covered by a fill ends with that fill's colour byte when no later fill covers it |
| Font.AlphabetLayout | text2screen.c:97-131 | the table has 95 printable glyphs; codes 0 to 31 and 127 are NONPRINTABLE, space is blank, and codes 128 to 255 are blank |
| Font.Glyph | text2screen.c:97-131 | `alphabet[(unsigned char)c]`: NONPRINTABLE for control characters and DEL, the glyph of a printable character from the 95-entry `Printable` table, and 0 from 0x80 up |
| Font.GlyphBit | text2screen.c:219 | pixel `n` of a glyph is set iff bit `n` (`8*ly + lx`) of its 64-bit pattern is 1 |
| Font.CellStart | text2screen.c:213-228 | the top-left byte of glyph pixel `n`: `n / 8` scaled pixel rows and `n % 8` scaled pixels from the glyph's origin |
| Font.CellCmd | text2screen.c:220-222 | the `scale` x `scale` fill of glyph pixel `n` in a given colour |
| Font.CellFills | text2screen.c:219-223 | one glyph pixel: a foreground fill if its bit is set, else a background fill if there is a background, else nothing |
| Font.GlyphFills | text2screen.c:213-229 | the fills of the first `n` glyph pixels, row by row and left to right |
| Font.GlyphWithBackground | text2screen.c:218-223 | with a background, each of the 64 cells gives exactly one fill: foreground iff its bit `8*ly + lx` is set, background otherwise |
| Font.GlyphForegroundOnly | text2screen.c:218-223 | without a background, one fill per set bit of the glyph; each fill is the foreground fill of a set pixel |
| Font.ForegroundCell | text2screen.c:218-223 | without a background, fill `i` of a glyph is the foreground fill of a pixel `k` whose bit is set |
| Font.CellInBox | text2screen.c:213-228 | every scaled cell of a glyph lies in the glyph's box |
| Font.GlyphWellFormed | text2screen.c:213-228 | every fill of a glyph has a stride wide enough for its row of pixels |
| Font.GlyphInBox | text2screen.c:213-228 | when the glyph's box fits the memory, every fill of the glyph fits it |
| Font.CellInGlyph | text2screen.c:218-223 | when every fill of a glyph fits the memory, so does every fill of each of its pixels |
| Font.GlyphPaints | text2screen.c:218-220 | a set bit of the glyph yields a foreground fill of its cell |
| Text2Screen.NormalizeSpan | text2screen.c:311-320 | the normalized extent is non-negative, a non-negative extent is kept, and the covered pixels are the same as before |
| Text2Screen.Normalize | text2screen.c:311-320 | `normalize` updates both axes as `NormalizeSpan` says |
| Text2Screen.DefaultExtent | text2screen.c:324-329 | a zero width or height reaches from the start to the screen's edge; any other extent is kept |
| Text2Screen.ClearArea | text2screen.c:322-334 | an accepted rectangle lies on the screen and covers exactly the pixels the defaulted, unnormalized arguments name |
| Text2Screen.AxisCheck | text2screen.c:330-331 | the test on one normalized axis fails iff some covered pixel is off that axis |
| Text2Screen.ClearAreaRejects | text2screen.c:324-334 | `fb_clear` rejects the arguments iff some pixel they cover is off the screen |
| Text2Screen.ClearToEdges | text2screen.c:324-329 | width 0 and height 0 clear from (x, y) to the right and bottom edges |
| Text2Screen.ClearFits | text2screen.c:331-337 | an on-screen rectangle gives a fill whose rows fit a line and which lies inside the memory |
| Text2Screen.ClearEffect | text2screen.c:335-337 | clearing writes the colour into every byte of every pixel of the rectangle, at `line_len*y + depth*x + b`, and changes no other byte |
| Text2Screen.Fill | text2screen.c:75-93 | `fill` with rows one line length apart: ok iff the depth is supported or the area is empty; memory is `FillSpec` or unchanged |
| Text2Screen.FbClear | text2screen.c:322-339 | a rejected rectangle gives failure and no write; otherwise the memory is exactly the rectangle filled, or unchanged with an abort at an unsupported depth |
| Text2Screen.LetterSize | text2screen.c:158 | `letter_size` is eight times the scale |
| Text2Screen.RowHeight | text2screen.c:157-160 | `row_height` is a letter plus `space_size`, ten times the scale |
| Text2Screen.PerRow | text2screen.c:159 | `max_chars_per_row` is the largest count of letters whose total width fits the screen width |
| Text2Screen.FirstLine | text2screen.c:171 | `first_line_len`: the text's length, cut to one row of `max_chars_per_row` letters |
| Text2Screen.TextRows | text2screen.c:182 | `rows_in_text`: the length rounded up to whole rows, with the sum taken modulo 2^32 |
| Text2Screen.AlignX | text2screen.c:171-181 | the column of `halign`: `x` for none or "left", the 32-bit slack `width - first_line_len * letter_size` for "right", half of it for "center", each then stored in an `int`; `None` for an unknown name |
| Text2Screen.AlignY | text2screen.c:182-192 | the row of `valign`: `y` for none or "top", the 32-bit room `height - row_height * rows_in_text` for "bottom", half of it for "center", each then stored in an `int`; `None` for an unknown name |
| Text2Screen.Align | text2screen.c:153-192 | scale below 1 is rejected, and only then with InvalidScale; `x` with `halign`, `y` with `valign` and unknown names are rejected; otherwise the placement is the aligned `x` and `y` |
| Text2Screen.TextRowsCover | text2screen.c:182 | `rows_in_text` rows of `max_chars_per_row` letters hold the text, and one row fewer would not |
| Text2Screen.AlignHorizontal | text2screen.c:171-181 | "left" keeps `x`; "right" puts the first line's right edge on the screen's right edge; "center" leaves margins that differ by at most one pixel |
| Text2Screen.AlignVertical | text2screen.c:182-192 | for a text no taller than the screen: "top" keeps `y`; "bottom" puts the text's bottom on the screen's bottom; "center" leaves margins that differ by at most one line |
| Text2Screen.Capacity | text2screen.c:199-200 | the letters admitted from the origin: `(max_rows - 1) * max_chars_per_row + (width - x) / letter_size`, every step modulo 2^32 |
| Text2Screen.ExactCapacity | text2screen.c:199-200 | the same count in exact arithmetic, as the check is evidently meant |
| Text2Screen.Layout | text2screen.c:194-203 | the checks as written: an accepted origin has `x` and `y` both at most the width, and the text is at most the capacity computed modulo 2^32 |
| Text2Screen.CheckedLayout | text2screen.c:194-203 | the checks as intended: an accepted origin is on the screen and the text is at most the exact capacity |
| Text2Screen.CheckedAgrees | text2screen.c:194-203 | on a screen no taller than wide, every text the intended checks accept is accepted at the same place by the checks as written |
| Text2Screen.CapacityArith | text2screen.c:199-200 | in range the 32-bit capacity equals the exact one |
| Text2Screen.CapacityBound | text2screen.c:199-200 | on a valid screen the exact capacity stays below 2^32 |
| Text2Screen.Advance | text2screen.c:230-237 | one step of `letter_out`: one letter right, or, past `last_letter_in_row`, column 0 of line `y + row_height * (row + 1)` with `row` one more |
| Text2Screen.CursorAt | text2screen.c:207-237 | `letter_out` and `row` before letter `c`: the first letter at `line_len*y + depth*x`, row 0, then one `Advance` per letter |
| Text2Screen.WrapFirstRow | text2screen.c:230-237 | inside the first row the next letter follows on the same row, `letter_size` further on |
| Text2Screen.WrapFirstEnd | text2screen.c:230-237 | after the last slot of the first row the next letter starts a new row at column 0 |
| Text2Screen.WrapLater | text2screen.c:230-237 | on later rows the next letter wraps exactly when the last slot of the row is passed |
| Text2Screen.AdvanceSlot | text2screen.c:230-237 | one step of the C cursor moves from letter slot `c` to slot `c + 1` |
| Text2Screen.CursorClosedForm | text2screen.c:207-237 | the cursor after `c` letters is at the closed-form row and column of slot `c`, rows `row_height` lines apart below `y` |
| Text2Screen.SlotBounds | text2screen.c:199-237 | under the intended checks every letter's slot lies within the width horizontally and its glyph fits above the bottom edge |
| Text2Screen.LetterOnScreen | text2screen.c:194-237 | under the intended checks, every letter's box lies in the mapped memory |
| Text2Screen.PenFits | text2screen.c:215-228 | a scaled cell's row fits a line, and the glyph's fills are well formed at a supported depth |
| Text2Screen.TextFillsInside | text2screen.c:194-238 | under the intended checks, every fill of the glyph loop lies in the mapped memory |
| Text2Screen.TextPen | text2screen.c:205-228 | the glyph loop's pen: rows one line length apart, the depth, the scale, the foreground colour, and the background colour only with `bg_clear` |
| Text2Screen.LetterFills | text2screen.c:211-229 | the fills of letter `c`: its glyph drawn at the cursor before it |
| Text2Screen.Letters | text2screen.c:210-238 | one entry per letter of the text, entry `c` being letter `c`'s fills |
| Text2Screen.TextFills | text2screen.c:210-238 | the fills of the first `c` letters, in the order the loop makes them |
| Text2Screen.CellCases | text2screen.c:218-223 | a cell gives a foreground fill when its bit is set, else a background fill under `bg_clear`, else no fill |
| Text2Screen.LetterPaints | text2screen.c:218-220 | each set bit of each letter's glyph gives a foreground fill at that letter's cursor |
| Text2Screen.DrawCell | text2screen.c:218-223 | one cell of the loop draws that cell's fills, or aborts with nothing written |
| Text2Screen.CellStartAt | text2screen.c:216-228 | `pxlx_out` after `ly` lines and `lx` cells is the closed-form start of cell `8*ly + lx` |
| Text2Screen.DrawGlyphCell | text2screen.c:218-225 | one pass of the innermost loop extends the drawn cells by one |
| Text2Screen.DrawGlyphLine | text2screen.c:215-229 | the innermost loop draws one line of eight cells |
| Text2Screen.DrawGlyph | text2screen.c:213-229 | the two glyph loops draw all 64 cells of the glyph, or abort with nothing written |
| Text2Screen.CheckedLettersFit | text2screen.c:194-237 | under the intended checks every fill of every letter lies in the mapped memory |
| Text2Screen.InsideLetters | text2screen.c:205-238 | when every fill of the text lies in the mapped memory, so does every fill of each letter |
| Text2Screen.LetterStep | text2screen.c:210-238 | the fills of `c` letters followed by a glyph are the fills of `c + 1` letters |
| Text2Screen.LetterAborts | text2screen.c:210-238 | if a letter has a fill, the whole text has one, so an abort happens only on a non-empty text |
| Text2Screen.DrawLetter | text2screen.c:211-229 | one pass of the letter loop draws that letter's glyph at its cursor |
| Text2Screen.NextLetter | text2screen.c:230-237 | the pointer and row update after a letter is one step of the cursor |
| Text2Screen.DrawText | text2screen.c:205-238 | the letter loop leaves memory equal to all the text's fills applied in order, or unchanged with an abort |
| Text2Screen.FbWriteText | text2screen.c:142-240 | the checks as written decide: a rejected text gives failure and no write; otherwise every glyph is drawn at its cursor in order, or nothing with an abort at an unsupported depth |
| Text2Screen.CheckedWriteText | text2screen.c:142-240 | the same drawing decided by the intended checks, which keep every fill inside the mapped memory |
| Text2Screen.BoundsCheckUsesWidth | text2screen.c:194-197 | "A" at y = 600 on an 800x480 screen passes the checks as written and fails the intended ones |
| Text2Screen.BoundsCheckOverruns | text2screen.c:194-228 | that letter's fills reach past the end of the mapped memory |
| Text2Screen.CapacityWraps | text2screen.c:199-203 | for "A" at (8, 475) the 32-bit capacity wraps to 2^32 - 1, so the text passes as written and fails as intended |
| Text2Screen.CapacityOverruns | text2screen.c:199-228 | that letter's fills reach past the end of the mapped memory |
| FbText2Screen.Packed | fb_text2screen.c:72 | the old code's screen is the newer geometry with an exact line length of `depth * width`, inside the mapping |
| FbText2Screen.AsNew | fb_text2screen.c:123-124 | the old arguments are one colour, no background and placement by `x` and `y` only |
| FbText2Screen.OutOfBounds | fb_text2screen.c:125 | the bounds test as written: `x` outside `[0, width]` or `y` outside `[0, width]` |
| FbText2Screen.Layout | fb_text2screen.c:125-151 | the checks as written: the bounds check (`y` against the width) comes first, then the scale; an alignment is an error only next to a non-zero coordinate, so an accepted alignment comes with a zero coordinate, and it never moves the text; the capacity is taken modulo 2^32 |
| FbText2Screen.CheckedLayout | fb_text2screen.c:125-151 | the checks as intended: an accepted origin is on the screen, an accepted alignment comes with a zero coordinate, and the text is at most the exact capacity |
| FbText2Screen.CheckedMatchesNew | fb_text2screen.c:125-151 | a text the old intended checks accept is accepted at the same place by the newer intended checks, unless it is empty on a screen narrower than one letter: then the newer checks give `Err(Undefined)` (a division by a zero `max_chars_per_row`) |
| FbText2Screen.TextFillsInside | fb_text2screen.c:153-175 | under the intended checks every fill at the corrected cursor (rows at `y + row * row_height`) lies in the mapping |
| FbText2Screen.Advance | fb_text2screen.c:177-183 | one step of the old `letter_out`: one letter right, or, past the end of screen line `row * row_height`, column 0 of line `(row + 1) * row_height`; `y` plays no part |
| FbText2Screen.CursorAt | fb_text2screen.c:155-183 | the old `letter_out` and `row` before letter `c`: the first letter at `depth * (width*y + x)`, then one old `Advance` per letter |
| FbText2Screen.LetterFills | fb_text2screen.c:159-175 | the fills of letter `c`: its glyph in the one foreground colour at the old cursor |
| FbText2Screen.Letters | fb_text2screen.c:158-184 | one entry per letter of the text, entry `c` being letter `c`'s fills at the old cursor |
| FbText2Screen.TextFills | fb_text2screen.c:158-184 | the fills of the first `c` letters at the old cursor, in loop order |
| FbText2Screen.AdvanceAtTop | fb_text2screen.c:177-183 | for a text at the top of the screen, one step of the old cursor is the intended one |
| FbText2Screen.CursorAtTop | fb_text2screen.c:155-183 | for a text at the top of the screen, the old cursor agrees with the intended one at every letter |
| FbText2Screen.TextFillsAtTop | fb_text2screen.c:155-183 | for a text at the top of the screen, the fills at the cursor as written are the fills at the intended cursor |
| FbText2Screen.InsideLetters | fb_text2screen.c:158-184 | when every fill of the text lies in the mapping, so does every fill of each letter |
| FbText2Screen.LetterFitsRow | fb_text2screen.c:134-151 | a non-empty text the checks as written accept leaves room for at least one letter per row |
| FbText2Screen.LetterStep | fb_text2screen.c:158-184 | the fills of `c` letters followed by letter `c`'s glyph at the cursor as written are the fills of `c + 1` letters |
| FbText2Screen.LetterAborts | fb_text2screen.c:158-184 | if a letter has a fill, the whole text has one |
| FbText2Screen.DrawLetter | fb_text2screen.c:159-175 | one pass of the old letter loop draws that letter's glyph at the cursor as written |
| FbText2Screen.NextLetter | fb_text2screen.c:177-183 | the pointer and row update after a letter is one step of the cursor as written |
| FbText2Screen.DrawText | fb_text2screen.c:153-184 | the old letter loop leaves memory equal to all the text's fills at the cursor as written, applied in order, or unchanged with an abort |
| FbText2Screen.FbWriteText | fb_text2screen.c:123-186 | the checks as written decide: a rejected text gives failure and no write; otherwise every glyph is drawn in the foreground colour only at the cursor as written, or nothing with an abort |
| FbText2Screen.CheckedWriteText | fb_text2screen.c:123-186 | the same drawing decided by the intended checks and drawn at the intended cursor, which keep every fill inside the mapping |
| FbText2Screen.FbClear | fb_text2screen.c:267-282 | the defaults, normalization and checks of the newer `fb_clear`; the rectangle starts at `depth*(width*y + x)` with rows `depth*width` apart |
| FbText2Screen.WrapIgnoresY | fb_text2screen.c:177-183 | "AA" at (0, 1) on an 80x15 screen is accepted, but the old wrap sends the second letter to line 10 where it should follow on line 1 |
| FbText2Screen.WrapOverruns | fb_text2screen.c:177-183 | that second letter, drawn from the old cursor, reaches past the mapping |
| FbText2Screen.BoundsCheckUsesWidth | fb_text2screen.c:125-127 | "A" at y = 600 on an 800x480 screen passes the old checks as written and fails the intended ones |
| FbText2Screen.BoundsCheckOverruns | fb_text2screen.c:125-175 | that letter's fills reach past the end of the mapping |
| FbText2Screen.CapacityWraps | fb_text2screen.c:146-151 | "A" at (8, 475) passes the old 32-bit capacity check and fails the exact one |
| FbText2Screen.CapacityOverruns | fb_text2screen.c:146-175 | that letter's fills reach past the end of the mapping |
| WlanCal.CopyBytes | src/open-wlan-cal.c:111 | `memcpy` writes `src` from index `at` and leaves every other byte as it was |
| WlanCal.LoadLe32 | src/open-wlan-cal.c:78 | a 32-bit little-endian load is below 2^32, and its low byte is the first byte in memory |
| WlanCal.Word | src/open-wlan-cal.c:78 | `data[k]` of a `uint32_t *`: the little-endian word at bytes `4k` to `4k + 3` |
| WlanCal.MacRecord | src/open-wlan-cal.c:76-79 | MAC byte `i` is the first byte of 32-bit word `i + 1` of the 28-byte block |
| WlanCal.SetMac | src/open-wlan-cal.c:69-83 | a block of any length but 28 fails the assert; otherwise the six bytes are the MAC record |
| WlanCal.IqItemCount | src/open-wlan-cal.c:97 | the loop runs `sizeof(iq) / item_len` = 13 times, and 13 items of 10 bytes fill the 130-byte record |
| WlanCal.IqPrefix | src/open-wlan-cal.c:103-108 | the first byte of item `i`: `108 + 5i` modulo 256 |
| WlanCal.IqPrefixStep | src/open-wlan-cal.c:103-108 | each item's first byte is the previous item's plus 5, modulo 256, starting from 108 |
| WlanCal.IqItem | src/open-wlan-cal.c:98-111 | an item is 10 bytes, and its 8 payload bytes from `4 + 8i` lie inside the 108-byte block for every i < 13 |
| WlanCal.IqItems | src/open-wlan-cal.c:97-112 | items `from` to 12 back to back, 10 bytes each |
| WlanCal.IqRecord | src/open-wlan-cal.c:96-112 | the IQ record is 130 bytes |
| WlanCal.IqByte | src/open-wlan-cal.c:103-111 | byte `j` of the record: for `j = 10i + k`, the prefix of item `i` at `k = 0`, a tab at `k = 1`, else payload byte `4 + 8i + k - 2` |
| WlanCal.IqByteOfItem | src/open-wlan-cal.c:103-111 | byte `10i + k` in closed form is byte `k` of item `i` |
| WlanCal.IqLayout | src/open-wlan-cal.c:96-112 | every byte of the record is given by the closed form: prefix, tab, then payload byte `4 + 8i + k - 2` |
| WlanCal.IqData | src/open-wlan-cal.c:103-111 | the payload a run of IQ items carries: each 10-byte item without its first two bytes |
| WlanCal.IqItemData | src/open-wlan-cal.c:111 | without its prefix and tab, item `i` is payload bytes `4 + 8i` to `12 + 8i` |
| WlanCal.IqDataItems | src/open-wlan-cal.c:97-112 | the items from `from` on carry exactly the payload from byte `4 + 8*from` |
| WlanCal.IqRoundTrip | src/open-wlan-cal.c:97-112 | stripping the prefix and tab from every item gives back the payload after its 4-byte header |
| WlanCal.WriteIqItem | src/open-wlan-cal.c:103-111 | one loop pass writes item `i`, with the prefix read back from item `i - 1`, and leaves other bytes alone |
| WlanCal.SetIqValues | src/open-wlan-cal.c:85-115 | a block of any length but 108 fails the assert; otherwise the 130 written bytes are the IQ record |
| WlanCal.TxItemCount | src/open-wlan-cal.c:132 | the loop runs `(sizeof(tx_curve) - prefix_len) / item_len` = 13 times, and the header plus 13 items of 42 bytes fill all 550 bytes |
| WlanCal.TxItem | src/open-wlan-cal.c:133-137 | an item is 42 bytes, and its payload bytes `14 + 38i` to `52 + 38i` lie inside the 508-byte block for every i < 13 |
| WlanCal.TxItems | src/open-wlan-cal.c:132-138 | items `from` to 12 back to back, 42 bytes each |
| WlanCal.TxRecord | src/open-wlan-cal.c:130-138 | the TX record is 550 bytes |
| WlanCal.TxByte | src/open-wlan-cal.c:131-137 | byte `j` of the record: the header below 4, then per 42-byte item two payload bytes, the four separator bytes and 36 payload bytes |
| WlanCal.TxByteOfItem | src/open-wlan-cal.c:133-137 | byte `4 + 42i + k` in closed form is byte `k` of item `i` |
| WlanCal.TxLayout | src/open-wlan-cal.c:130-138 | every byte of the record is given by the closed form: header 3,0,6,0, then per item two payload bytes, the separator 0x0C,0x00,0x20,0x02, and 36 more payload bytes |
| WlanCal.TxData | src/open-wlan-cal.c:133-137 | the payload a run of TX items carries: each 42-byte item without its four separator bytes |
| WlanCal.TxItemData | src/open-wlan-cal.c:133-137 | without its separator, item `i` is payload bytes `14 + 38i` to `52 + 38i` |
| WlanCal.TxDataItems | src/open-wlan-cal.c:132-138 | the items from `from` on carry exactly the payload from byte `14 + 38*from` |
| WlanCal.TxRoundTrip | src/open-wlan-cal.c:131-138 | the record starts with the header, and removing every separator gives back the payload from byte 14 |
| WlanCal.WriteTxItem | src/open-wlan-cal.c:133-137 | one loop pass's three copies write item `i` and leave other bytes alone |
| WlanCal.SetTxCurve | src/open-wlan-cal.c:117-142 | a block of any length but 508 fails the assert; otherwise the 550 written bytes are the TX record |

## Left out

- `fb_init`, `fb_destroy` and `fb_flush` in both renderers are device plumbing (`open`, `ioctl`, `mmap`). The screen is a given geometry and an already-mapped byte array of `line_length * yres` bytes.
- `main` in both renderers is not modelled: option parsing, help text, and colour parsing with `strtoul`, including the 4-digit RGB565 rule.
- The following are file, socket, terminal or foreign-call code: `cal_init`, `cal_read_block`, `write_to`, `print_start`/`print_end`, the other `set_*` functions of src/open-wlan-cal.c, libopencal, the CAL tools, key_pressed.c and the root open-wlan-cal.c. The payload `cal_read_block` returns is a parameter.
- The CAL block store is not part of this model; no source for it is present.
- Messages printed to stderr are not modelled; only the returned status is.
- `abort()` in the newer `fill` and `assert(0)` in the older one are the `Aborted` status with memory unchanged. A build with `NDEBUG`, where the older `fill` would skip the store and carry on, is not modelled.
- `Text2Screen.FbWriteText`, `FbText2Screen.FbWriteText`: a text that the checks as written accept is modelled only when, at a supported depth, all its fills lie in the mapped memory. Otherwise the C code stores outside the mapping, which has no defined meaning. A text that the checks as written accept and the intended ones refuse may or may not fit; the texts under Findings do not.
- `Text2Screen.FbWriteText`, `Text2Screen.CheckedWriteText`, `FbText2Screen.FbWriteText`, `FbText2Screen.CheckedWriteText`: the signed overflow of `scale * 8` is excluded by a precondition (`Err(Undefined)`). In the newer renderer `Err(Undefined)` also covers the division by a zero `max_chars_per_row` when the screen is narrower than one letter. The older renderer never divides by `max_chars_per_row`.
- Text2Screen.AlignVertical: states nothing for a text taller than the screen. There `height - row_height * rows_in_text` wraps modulo 2^32, so "center" and "bottom" give a `y` that is not the intended one, usually a large or negative `int` that the bounds check rejects.
- Text2Screen.SlotBounds: holds under the intended checks only. Under the checks as written a letter may end below the bottom edge; the Findings rows show such texts.
- The `int` arithmetic of `last_letter_in_row` in both renderers is exact here; its overflow is not modelled.
- `Text2Screen.FbClear`, `FbText2Screen.FbClear`: `int` overflow in `fb->width - x`, `x + width` or the negation in `normalize` (`INT_MIN`) is not modelled. The arguments are unbounded integers.
- The letter cursor is an integer offset from the start of the mapping. Pointer arithmetic past the mapping is not modelled beyond showing, in Findings, that the fills fall outside it.
- The glyph loops in C are one function. Here each loop level is its own method (`DrawLetter`, `DrawGlyph`, `DrawGlyphLine`, `DrawGlyphCell`, `NextLetter`), and so are the per-item loop bodies of open-wlan-cal (`WriteIqItem`, `WriteTxItem`). The stores and their order are the same.
- The commented-out assert in `set_iq_values` (src/open-wlan-cal.c:99-102) is not modelled because it does not run. `WlanCal.IqItem` shows the intended bound instead: every read ends at `12 + 8i` ≤ 108. The commented test `read_offset + read_item_len < len` would fail for the last item.

## Findings

| source | as written | input that shows it | evidently intended | confidence | as-written member | corrected member |
|---|---|---|---|---|---|---|
| text2screen.c:194 | the bounds check tests `y > fb->width` | "A", scale 1, at (0, 600) on an 800x480 screen, 2 bytes per pixel, line length 1600: accepted, and its glyph starts past the 768000 mapped bytes | `y > fb->height` | not executed | Text2Screen.Layout, Text2Screen.BoundsCheckUsesWidth, Text2Screen.BoundsCheckOverruns | Text2Screen.CheckedLayout, Text2Screen.TextFillsInside, Text2Screen.CheckedWriteText |
| text2screen.c:199-200 | `max_rows - 1` is computed as `unsigned int`, so it wraps to 2^32 - 1 when no row fits below `y` | "A", scale 1, at (8, 475) on the same screen: the capacity comes to 2^32 - 1 and the text is accepted; the seventh line of the glyph lies past the mapped memory | reject the text when no row fits (exact capacity) | not executed | Text2Screen.Layout, Text2Screen.CapacityWraps, Text2Screen.CapacityOverruns | Text2Screen.CheckedLayout, Text2Screen.TextFillsInside, Text2Screen.CheckedWriteText |
| fb_text2screen.c:125 | the bounds check tests `y > fb->width` | "A" at (0, 600) on an 800x480 screen, 2 bytes per pixel, 768000 mapped bytes: accepted, and drawn past the mapping | `y > fb->height` | not executed | FbText2Screen.Layout, FbText2Screen.BoundsCheckUsesWidth, FbText2Screen.BoundsCheckOverruns | FbText2Screen.CheckedLayout, FbText2Screen.TextFillsInside, FbText2Screen.CheckedWriteText |
| fb_text2screen.c:146-148 | `max_rows - 1` wraps as `unsigned int` | "A" at (8, 475) on the same screen: accepted, and drawn past the mapping | reject the text when no row fits (exact capacity) | not executed | FbText2Screen.Layout, FbText2Screen.CapacityWraps, FbText2Screen.CapacityOverruns | FbText2Screen.CheckedLayout, FbText2Screen.TextFillsInside, FbText2Screen.CheckedWriteText |
| fb_text2screen.c:178-182 | the end of a row and the start of the next are computed from screen line `row * row_height`, ignoring `y` | "AA", scale 1, at (0, 1) on an 80x15 screen, 2 bytes per pixel, 2400 mapped bytes: both checks accept it; the second letter is sent to line 10 instead of following on line 1, and its glyph runs past the mapping | rows at `y + row * row_height`, as the newer renderer does (text2screen.c:232-236) | not executed | FbText2Screen.CursorAt, FbText2Screen.FbWriteText, FbText2Screen.WrapIgnoresY, FbText2Screen.WrapOverruns | FbText2Screen.CheckedWriteText, FbText2Screen.TextFillsInside |
