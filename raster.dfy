/**
 * The rectangle fill both renderers are built on. A fill paints `width` x
 * `height` pixels of `depth` bytes each into a byte buffer; its top-left
 * pixel starts at byte `start` and consecutive rows are `stride` bytes apart.
 * The newer renderer passes the framebuffer's line length as the stride, the
 * older one `depth * width`.
 */
module Raster {
  import opened Machine
  import Color

  /** The pixel depths `fill` can store; any other depth aborts the process. */
  predicate ValidDepth(depth: nat) {
    depth == 2 || depth == 4
  }

  /**
   * The bytes one pixel store writes: the RGB565 packing of the colour as a
   * 16-bit store at depth 2, the colour itself as a 32-bit store at depth 4.
   */
  function PixelBytes(depth: nat, color: bv32): (r: seq<byte>)
    requires ValidDepth(depth)
    ensures |r| == depth
  {
    if depth == 2 then Le16(Color.Rgb888To565(color)) else Le32(color)
  }

  /** One call of `fill`. */
  datatype FillCmd = FillCmd(start: int, stride: nat, depth: nat, color: bv32, width: nat, height: nat)

  /** A fill whose depth can be stored and whose rows do not overlap. */
  predicate WellFormed(f: FillCmd) {
    ValidDepth(f.depth) && f.stride >= f.depth * f.width
  }

  /** Every byte of the rectangle lies inside a buffer of `n` bytes. */
  predicate Inside(f: FillCmd, n: int) {
    f.width == 0 || f.height == 0 ||
    (0 <= f.start && f.start + (f.height - 1) * f.stride + f.width * f.depth <= n)
  }

  /** Every fill of the sequence is well formed. */
  predicate AllWellFormed(cmds: seq<FillCmd>) {
    forall i :: 0 <= i < |cmds| ==> WellFormed(cmds[i])
  }

  lemma AllWellFormedConcat(a: seq<FillCmd>, b: seq<FillCmd>)
    requires AllWellFormed(a) && AllWellFormed(b)
    ensures AllWellFormed(a + b)
  {
    assert forall i :: |a| <= i < |a + b| ==> (a + b)[i] == b[i - |a|];
  }

  /** A prefix stays a prefix when the longer sequence grows. */
  lemma PrefixExtend<T>(a: seq<T>, b: seq<T>, x: seq<T>)
    requires a <= b
    ensures a <= b + x
  {
    assert (b + x)[..|b|] == b;
  }

  /** What a prefix holds its extensions hold. */
  lemma InPrefix<T>(x: T, a: seq<T>, b: seq<T>)
    requires x in a && a <= b
    ensures x in b
  {
    var i :| 0 <= i < |a| && a[i] == x;
    assert b[i] == x;
  }

  /** The fill commands of a sequence of groups, group after group. */
  function Flatten(xs: seq<seq<FillCmd>>): seq<FillCmd> {
    if |xs| == 0 then [] else Flatten(xs[..|xs| - 1]) + xs[|xs| - 1]
  }

  lemma FlattenSnoc(xs: seq<seq<FillCmd>>, i: int)
    requires 0 <= i < |xs|
    ensures Flatten(xs[..i + 1]) == Flatten(xs[..i]) + xs[i]
  {
    assert xs[..i + 1][..i] == xs[..i];
  }

  lemma {:induction false} FlattenPrefix(xs: seq<seq<FillCmd>>, i: int, j: int)
    requires 0 <= i <= j <= |xs|
    ensures Flatten(xs[..i]) <= Flatten(xs[..j])
  {
    if i < j {
      FlattenPrefix(xs, i, j - 1);
      FlattenSnoc(xs, j - 1);
      PrefixExtend(Flatten(xs[..i]), Flatten(xs[..j - 1]), xs[j - 1]);
    }
  }

  /** Every fill of the sequence lies inside a buffer of `n` bytes. */
  predicate AllInside(cmds: seq<FillCmd>, n: int) {
    forall i :: 0 <= i < |cmds| ==> Inside(cmds[i], n)
  }

  lemma AllInsideConcat(a: seq<FillCmd>, b: seq<FillCmd>, n: int)
    requires AllInside(a, n) && AllInside(b, n)
    ensures AllInside(a + b, n)
  {
    assert forall i :: |a| <= i < |a + b| ==> (a + b)[i] == b[i - |a|];
  }

  /** A run of fills taken from a sequence whose fills lie inside the buffer lies inside it too. */
  lemma AllInsideInfix(a: seq<FillCmd>, b: seq<FillCmd>, whole: seq<FillCmd>, n: int)
    requires a + b <= whole && AllInside(whole, n)
    ensures AllInside(b, n)
  {
    forall i | 0 <= i < |b|
      ensures Inside(b[i], n)
    {
      assert b[i] == (a + b)[|a| + i] == whole[|a| + i];
    }
  }

  /** The groups of fills that each lie inside the buffer flatten to fills that do. */
  lemma {:induction false} FlattenInside(xs: seq<seq<FillCmd>>, n: int)
    requires forall i :: 0 <= i < |xs| ==> AllInside(xs[i], n)
    ensures AllInside(Flatten(xs), n)
  {
    if |xs| > 0 {
      FlattenInside(xs[..|xs| - 1], n);
      AllInsideConcat(Flatten(xs[..|xs| - 1]), xs[|xs| - 1], n);
    }
  }

  /** How a drawing operation ends: EXIT_SUCCESS, EXIT_FAILURE, or the process aborting in `fill`. */
  datatype Status = Success | Failure | Aborted

  /** Row of the rectangle byte `k` falls in. */
  function Row(f: FillCmd, k: int): int
    requires f.stride > 0
  {
    (k - f.start) / f.stride
  }

  /** Pixel column of the rectangle byte `k` falls in. */
  function Col(f: FillCmd, k: int): int
    requires f.stride > 0 && f.depth > 0
  {
    ((k - f.start) % f.stride) / f.depth
  }

  /** Which byte of its pixel `k` is. */
  function Lane(f: FillCmd, k: int): int
    requires f.stride > 0 && f.depth > 0
  {
    ((k - f.start) % f.stride) % f.depth
  }

  /**
   * Byte `k` belongs to one of the first `rows` rows of the rectangle or to
   * one of the first `cols` pixels of row `rows`: what `fill` has written
   * after that many rows and pixels.
   */
  predicate Painted(f: FillCmd, k: int, rows: int, cols: int) {
    f.width > 0 && f.stride > 0 && f.depth > 0 && k >= f.start &&
    ((Row(f, k) < rows && Col(f, k) < f.width) || (Row(f, k) == rows && Col(f, k) < cols))
  }

  /** Byte `k` belongs to the rectangle. */
  predicate Covers(f: FillCmd, k: int) {
    Painted(f, k, f.height, 0)
  }

  /** The buffer after the fill: covered bytes hold their byte of the pixel value. */
  function FillSpec(m: seq<byte>, f: FillCmd): (r: seq<byte>)
    requires WellFormed(f)
    ensures |r| == |m|
  {
    seq(|m|, k requires 0 <= k < |m| =>
      if Covers(f, k) then PixelBytes(f.depth, f.color)[Lane(f, k)] else m[k])
  }

  /** Byte `b` of pixel (i, j) sits at `start + j * stride + i * depth + b`. */
  lemma PixelLocation(f: FillCmd, i: int, j: int, b: int)
    requires WellFormed(f)
    requires 0 <= i < f.width && 0 <= j && 0 <= b < f.depth
    ensures f.stride > 0
    ensures var k := f.start + j * f.stride + i * f.depth + b;
      Row(f, k) == j && Col(f, k) == i && Lane(f, k) == b
  {
    MulMono(i + 1, f.width, f.depth);
    DivModOf(j * f.stride + i * f.depth + b, f.stride, j, i * f.depth + b);
    DivModOf(i * f.depth + b, f.depth, i, b);
  }

  /** Every byte is byte `Lane` of pixel (`Col`, `Row`). */
  lemma Decompose(f: FillCmd, k: int)
    requires f.stride > 0 && f.depth > 0
    ensures k == f.start + Row(f, k) * f.stride + Col(f, k) * f.depth + Lane(f, k)
    ensures 0 <= Lane(f, k) < f.depth
  {
  }

  /** `fill` writes pixel (i, j) of a rectangle that fits the buffer, with the pixel's bytes. */
  lemma FillWritesRectangle(m: seq<byte>, f: FillCmd, i: int, j: int, b: int)
    requires WellFormed(f) && Inside(f, |m|)
    requires 0 <= i < f.width && 0 <= j < f.height && 0 <= b < f.depth
    ensures var k := f.start + j * f.stride + i * f.depth + b;
      0 <= k < |m| && FillSpec(m, f)[k] == PixelBytes(f.depth, f.color)[b]
  {
    PixelLocation(f, i, j, b);
    PixelInside(f, |m|, i, j);
  }

  /** A byte `fill` changes is byte `Lane` of some pixel (`Col`, `Row`) of the rectangle. */
  lemma FillChangesOnlyRectangle(m: seq<byte>, f: FillCmd, k: int)
    requires WellFormed(f) && 0 <= k < |m|
    requires FillSpec(m, f)[k] != m[k]
    ensures f.stride > 0
    ensures 0 <= Row(f, k) < f.height && 0 <= Col(f, k) < f.width && 0 <= Lane(f, k) < f.depth
    ensures k == f.start + Row(f, k) * f.stride + Col(f, k) * f.depth + Lane(f, k)
  {
    assert Covers(f, k);
    DivNonneg(k - f.start, f.stride);
    DivNonneg((k - f.start) % f.stride, f.depth);
    Decompose(f, k);
  }

  /** The bytes of pixel (i, j) lie inside a buffer the rectangle fits. */
  lemma PixelInside(f: FillCmd, n: int, i: int, j: int)
    requires WellFormed(f) && Inside(f, n)
    requires 0 <= i < f.width && 0 <= j < f.height
    ensures 0 <= f.start + j * f.stride + i * f.depth
    ensures f.start + j * f.stride + i * f.depth + f.depth <= n
  {
    MulMono(j, f.height - 1, f.stride);
    MulMono(i + 1, f.width, f.depth);
  }

  /** Before the first store nothing is painted. */
  lemma NothingPainted(f: FillCmd, k: int)
    ensures !Painted(f, k, 0, 0)
  {
    if f.stride > 0 && f.depth > 0 && k >= f.start {
      DivNonneg(k - f.start, f.stride);
      DivNonneg((k - f.start) % f.stride, f.depth);
    }
  }

  /**
   * Storing pixel (i, j) extends the painted region by exactly its bytes, and
   * byte `k - p` of the pixel value is the one covered byte `k` gets.
   */
  lemma PaintStep(f: FillCmd, j: int, i: int, k: int)
    requires WellFormed(f)
    requires 0 <= j && 0 <= i < f.width
    ensures var p := f.start + j * f.stride + i * f.depth;
      (Painted(f, k, j, i + 1) <==> Painted(f, k, j, i) || p <= k < p + f.depth) &&
      (p <= k < p + f.depth ==> Lane(f, k) == k - p)
  {
    var p := f.start + j * f.stride + i * f.depth;
    if p <= k < p + f.depth {
      PixelLocation(f, i, j, k - p);
    } else if f.stride > 0 && k >= f.start && Row(f, k) == j && Col(f, k) == i {
      Decompose(f, k);
    }
  }

  /** The buffer once `fill` has stored the first `rows` rows and the first `cols` pixels of row `rows`. */
  function Partial(m: seq<byte>, f: FillCmd, rows: int, cols: int): (r: seq<byte>)
    requires ValidDepth(f.depth)
    ensures |r| == |m|
  {
    seq(|m|, k requires 0 <= k < |m| =>
      if Painted(f, k, rows, cols) then PixelBytes(f.depth, f.color)[Lane(f, k)] else m[k])
  }

  /** The buffer after `bytes` are stored from byte `p` on. */
  function Stored(m: seq<byte>, p: int, bytes: seq<byte>): (r: seq<byte>)
    requires 0 <= p && p + |bytes| <= |m|
    ensures |r| == |m|
  {
    seq(|m|, k requires 0 <= k < |m| => if p <= k < p + |bytes| then bytes[k - p] else m[k])
  }

  lemma PartialStart(m: seq<byte>, f: FillCmd)
    requires ValidDepth(f.depth)
    ensures Partial(m, f, 0, 0) == m
  {
    forall k | 0 <= k < |m|
      ensures Partial(m, f, 0, 0)[k] == m[k]
    {
      NothingPainted(f, k);
    }
  }

  lemma PartialStep(m: seq<byte>, f: FillCmd, j: int, i: int)
    requires WellFormed(f) && 0 <= j && 0 <= i < f.width
    requires var p := f.start + j * f.stride + i * f.depth; 0 <= p && p + f.depth <= |m|
    ensures var p := f.start + j * f.stride + i * f.depth;
      Partial(m, f, j, i + 1) == Stored(Partial(m, f, j, i), p, PixelBytes(f.depth, f.color))
  {
    var p := f.start + j * f.stride + i * f.depth;
    forall k | 0 <= k < |m|
      ensures Partial(m, f, j, i + 1)[k] == Stored(Partial(m, f, j, i), p, PixelBytes(f.depth, f.color))[k]
    {
      PaintStep(f, j, i, k);
    }
  }

  lemma PartialRow(m: seq<byte>, f: FillCmd, j: int)
    requires ValidDepth(f.depth)
    ensures Partial(m, f, j, f.width) == Partial(m, f, j + 1, 0)
  {
    assert forall k :: 0 <= k < |m| ==> Partial(m, f, j, f.width)[k] == Partial(m, f, j + 1, 0)[k];
  }

  lemma PartialEnd(m: seq<byte>, f: FillCmd)
    requires WellFormed(f)
    ensures Partial(m, f, f.height, 0) == FillSpec(m, f)
  {
  }

  /**
   * fill: nested loops over rows and pixels that store the pixel value with
   * the store width the depth calls for; any other depth aborts at the first
   * pixel, before anything is written.
   */
  method FillRect(mem: array<byte>, f: FillCmd) returns (ok: bool)
    requires f.stride >= f.depth * f.width
    requires ValidDepth(f.depth) ==> Inside(f, mem.Length)
    modifies mem
    ensures ok <==> ValidDepth(f.depth) || f.width == 0 || f.height == 0
    ensures ok && ValidDepth(f.depth) ==> mem[..] == FillSpec(old(mem[..]), f)
    ensures !ValidDepth(f.depth) ==> mem[..] == old(mem[..])
  {
    var color16 := Color.Rgb888To565(f.color);
    ghost var m0 := mem[..];
    var out := f.start;
    if ValidDepth(f.depth) {
      PartialStart(m0, f);
    }
    for j := 0 to f.height
      invariant out == f.start + j * f.stride
      invariant ValidDepth(f.depth) ==> mem[..] == Partial(m0, f, j, 0)
      invariant !ValidDepth(f.depth) ==> mem[..] == m0 && (f.width == 0 || j == 0)
    {
      var rowOut := out;
      for i := 0 to f.width
        invariant rowOut == out + i * f.depth
        invariant ValidDepth(f.depth) ==> mem[..] == Partial(m0, f, j, i)
        invariant !ValidDepth(f.depth) ==> mem[..] == m0 && (f.width == 0 || (i == 0 && j == 0))
      {
        if f.depth == 2 {
          PixelInside(f, mem.Length, i, j);
          PartialStep(m0, f, j, i);
          Store(mem, rowOut, Le16(color16));
        } else if f.depth == 4 {
          PixelInside(f, mem.Length, i, j);
          PartialStep(m0, f, j, i);
          Store(mem, rowOut, Le32(f.color));
        } else {
          return false;
        }
        rowOut := rowOut + f.depth;
      }
      if ValidDepth(f.depth) {
        PartialRow(m0, f, j);
      }
      out := out + f.stride;
    }
    ok := true;
    if ValidDepth(f.depth) {
      PartialEnd(m0, f);
    }
  }

  /** A `depth`-byte store of a pixel value at byte `p`. */
  method Store(mem: array<byte>, p: int, bytes: seq<byte>)
    requires 0 <= p && p + |bytes| <= mem.Length
    modifies mem
    ensures mem[..] == Stored(old(mem[..]), p, bytes)
  {
    for n := 0 to |bytes|
      invariant forall k :: 0 <= k < mem.Length ==>
        mem[k] == (if p <= k < p + n then bytes[k - p] else old(mem[k]))
    {
      mem[p + n] := bytes[n];
    }
    assert forall k :: 0 <= k < mem.Length ==> mem[..][k] == Stored(old(mem[..]), p, bytes)[k];
  }

  /** Fills in the order they are made, each on the buffer the previous ones left. */
  function ApplyFills(m: seq<byte>, cmds: seq<FillCmd>): (r: seq<byte>)
    requires AllWellFormed(cmds)
    ensures |r| == |m|
    decreases |cmds|
  {
    if cmds == [] then m
    else FillSpec(ApplyFills(m, cmds[..|cmds| - 1]), cmds[|cmds| - 1])
  }

  /** Applying one more fill is filling the buffer the earlier ones left. */
  lemma ApplyFillsSnoc(m: seq<byte>, cmds: seq<FillCmd>, f: FillCmd)
    requires AllWellFormed(cmds)
    requires WellFormed(f)
    ensures ApplyFills(m, cmds + [f]) == FillSpec(ApplyFills(m, cmds), f)
  {
    assert (cmds + [f])[..|cmds|] == cmds;
  }

  /** Applying two sequences of fills in turn is applying their concatenation. */
  lemma {:induction false} ApplyFillsConcat(m: seq<byte>, a: seq<FillCmd>, b: seq<FillCmd>)
    requires AllWellFormed(a) && AllWellFormed(b)
    ensures AllWellFormed(a + b)
    ensures ApplyFills(m, a + b) == ApplyFills(ApplyFills(m, a), b)
    decreases |b|
  {
    AllWellFormedConcat(a, b);
    if b == [] {
      assert a + b == a;
    } else {
      var b', f := b[..|b| - 1], b[|b| - 1];
      assert b == b' + [f];
      assert a + b == (a + b') + [f];
      ApplyFillsConcat(m, a, b');
      ApplyFillsSnoc(m, a + b', f);
      ApplyFillsSnoc(ApplyFills(m, a), b', f);
    }
  }

  /**
   * Memory `m` is memory `m0` after the fills `cmds`. At an unsupported
   * depth the first fill aborts, so a run that carried on made none.
   */
  predicate Drawn(depthOk: bool, m0: seq<byte>, cmds: seq<FillCmd>, m: seq<byte>) {
    if depthOk then AllWellFormed(cmds) && m == ApplyFills(m0, cmds) else cmds == [] && m == m0
  }

  /** Drawing `a` and then `b` draws `a + b`. */
  lemma DrawnConcat(depthOk: bool, m0: seq<byte>, a: seq<FillCmd>, m1: seq<byte>, b: seq<FillCmd>, m2: seq<byte>)
    requires Drawn(depthOk, m0, a, m1) && Drawn(depthOk, m1, b, m2)
    ensures Drawn(depthOk, m0, a + b, m2)
  {
    if depthOk {
      ApplyFillsConcat(m0, a, b);
    } else {
      assert a + b == [];
    }
  }

  /** A single fill applied to `m0`. */
  lemma DrawnOne(m0: seq<byte>, f: FillCmd, m: seq<byte>)
    requires WellFormed(f) && m == FillSpec(m0, f)
    ensures Drawn(true, m0, [f], m)
  {
    assert [f][..0] == [];
  }

  /** A byte no fill of the sequence covers keeps its value. */
  lemma {:induction false} ApplyFillsUntouched(m: seq<byte>, cmds: seq<FillCmd>, k: int)
    requires AllWellFormed(cmds)
    requires 0 <= k < |m|
    requires forall i :: 0 <= i < |cmds| ==> !Covers(cmds[i], k)
    ensures ApplyFills(m, cmds)[k] == m[k]
    decreases |cmds|
  {
    if cmds != [] {
      ApplyFillsUntouched(m, cmds[..|cmds| - 1], k);
    }
  }

  /** A byte holds its byte of the pixel value of the last fill of the sequence that covers it. */
  lemma {:induction false} ApplyFillsLastWriter(m: seq<byte>, cmds: seq<FillCmd>, k: int, i: int)
    requires AllWellFormed(cmds)
    requires 0 <= k < |m| && 0 <= i < |cmds| && Covers(cmds[i], k)
    requires forall i' :: i < i' < |cmds| ==> !Covers(cmds[i'], k)
    ensures ApplyFills(m, cmds)[k] == PixelBytes(cmds[i].depth, cmds[i].color)[Lane(cmds[i], k)]
    decreases |cmds|
  {
    if i < |cmds| - 1 {
      ApplyFillsLastWriter(m, cmds[..|cmds| - 1], k, i);
    }
  }
}
