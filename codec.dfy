/**
 * The block codec: one payload unit is written by filling a block of the
 * frame with one colour, and read back as the floor of the mean of each
 * channel over the block. Blocks of a frame are visited in row-major order
 * over the usable size, in steps of the block size.
 */
module Codec {

  import opened Arith
  import opened Bits
  import opened Wrappers
  import opened Source

  /** A colour as the codec handles it: red, green, blue. */
  datatype Rgb = Rgb(r: Byte, g: Byte, b: Byte)

  /** The codec passes red, green, blue; the image stores blue, green, red. */
  function ToBgr(c: Rgb): (p: Bgr)
    ensures p.r == c.r && p.g == c.g && p.b == c.b
  {
    Bgr(c.b, c.g, c.r)
  }

  /** The grey a bit is written as: 255 for a set bit, 0 for a clear one. */
  function Grey(bit: bool): Rgb
  {
    if bit then Rgb(255, 255, 255) else Rgb(0, 0, 0)
  }

  /** Channel `c` of a sample: 0 is red, 1 green, 2 blue. */
  function Channel(p: Bgr, c: nat): Byte
  {
    if c == 0 then p.r else if c == 1 then p.g else p.b
  }

  /** The `size` by `size` block with top-left corner (x, y) lies inside the image. */
  predicate InGrid(img: array2<Bgr>, x: int, y: int, size: int)
  {
    0 <= x && 0 <= y && x + size <= img.Length1 && y + size <= img.Length0
  }

  /** Every sample of the block at (x, y) equals `p`. */
  ghost predicate Uniform(img: array2<Bgr>, x: int, y: int, size: int, p: Bgr)
    reads img
  {
    forall i, j :: y <= i < y + size && x <= j < x + size && 0 <= i < img.Length0 && 0 <= j < img.Length1 ==>
      img[i, j] == p
  }

  /** Channel `c` summed over `img[row, x .. x + count]`. */
  ghost function RowSum(img: array2<Bgr>, row: int, x: int, count: nat, c: nat): nat
    requires 0 <= row < img.Length0 && 0 <= x && x + count <= img.Length1
    reads img
  {
    if count == 0 then 0 else RowSum(img, row, x, count - 1, c) + Channel(img[row, x + count - 1], c)
  }

  /** Channel `c` summed over the first `rows` rows of the block at (x, y). */
  ghost function BlockSum(img: array2<Bgr>, x: int, y: int, rows: nat, size: nat, c: nat): nat
    requires 0 <= y && y + rows <= img.Length0 && 0 <= x && x + size <= img.Length1
    reads img
  {
    if rows == 0 then 0 else BlockSum(img, x, y, rows - 1, size, c) + RowSum(img, y + rows - 1, x, size, c)
  }

  lemma {:induction false} RowSumBound(img: array2<Bgr>, row: int, x: int, count: nat, c: nat)
    requires 0 <= row < img.Length0 && 0 <= x && x + count <= img.Length1
    ensures RowSum(img, row, x, count, c) <= 255 * count
  {
    if count > 0 {
      RowSumBound(img, row, x, count - 1, c);
    }
  }

  lemma {:induction false} BlockSumBound(img: array2<Bgr>, x: int, y: int, rows: nat, size: nat, c: nat)
    requires 0 <= y && y + rows <= img.Length0 && 0 <= x && x + size <= img.Length1
    ensures BlockSum(img, x, y, rows, size, c) <= 255 * (rows * size)
  {
    if rows > 0 {
      BlockSumBound(img, x, y, rows - 1, size, c);
      RowSumBound(img, y + rows - 1, x, size, c);
      assert (rows - 1) * size + size == rows * size;
    }
  }

  lemma DivAtMost(s: nat, d: int, m: nat)
    requires d > 0 && s <= m * d
    ensures s / d <= m
  {
    DivMod(s, d);
    var q := s / d;
    if q > m {
      MulAtLeast(q - m, d);
    }
  }

  /** The floor of the mean of channel `c` over the block: sum divided by size * size. */
  ghost function Mean(img: array2<Bgr>, x: int, y: int, size: int, c: nat): Byte
    requires size > 0 && InGrid(img, x, y, size)
    reads img
  {
    BlockSumBound(img, x, y, size, size, c);
    DivAtMost(BlockSum(img, x, y, size, size, c), size * size, 255);
    BlockSum(img, x, y, size, size, c) / (size * size)
  }

  ghost function BlockMean(img: array2<Bgr>, x: int, y: int, size: int): Rgb
    requires size > 0 && InGrid(img, x, y, size)
    reads img
  {
    Rgb(Mean(img, x, y, size, 0), Mean(img, x, y, size, 1), Mean(img, x, y, size, 2))
  }

  lemma {:induction false} UniformRowSum(img: array2<Bgr>, row: int, x: int, count: nat, c: nat, p: Bgr)
    requires 0 <= row < img.Length0 && 0 <= x && x + count <= img.Length1
    requires forall j :: x <= j < x + count ==> img[row, j] == p
    ensures RowSum(img, row, x, count, c) == count * Channel(p, c)
  {
    if count > 0 {
      UniformRowSum(img, row, x, count - 1, c, p);
    }
  }

  lemma {:induction false} UniformBlockSum(img: array2<Bgr>, x: int, y: int, rows: nat, size: nat, c: nat, p: Bgr)
    requires 0 <= y && y + rows <= img.Length0 && 0 <= x && x + size <= img.Length1
    requires forall i, j :: y <= i < y + rows && x <= j < x + size ==> img[i, j] == p
    ensures BlockSum(img, x, y, rows, size, c) == rows * (size * Channel(p, c))
  {
    if rows > 0 {
      UniformBlockSum(img, x, y, rows - 1, size, c, p);
      UniformRowSum(img, y + rows - 1, x, size, c, p);
      var w := size * Channel(p, c);
      assert (rows - 1) * w + w == rows * w;
    }
  }

  lemma UniformMeanChannel(img: array2<Bgr>, x: int, y: int, size: int, c: nat, p: Bgr)
    requires size > 0 && InGrid(img, x, y, size) && Uniform(img, x, y, size, p)
    ensures Mean(img, x, y, size, c) == Channel(p, c)
  {
    UniformBlockSum(img, x, y, size, size, c, p);
    var ch := Channel(p, c);
    var n := size * size;
    assert size * (size * ch) == ch * n;
    DivModUnique(ch * n, n, ch, 0);
  }

  /** The mean of a block filled with one sample is that sample: the block codec reads back what it wrote. */
  lemma UniformMean(img: array2<Bgr>, x: int, y: int, size: int, p: Bgr)
    requires size > 0 && InGrid(img, x, y, size) && Uniform(img, x, y, size, p)
    ensures BlockMean(img, x, y, size) == Rgb(p.r, p.g, p.b)
  {
    forall c | 0 <= c < 3 ensures Mean(img, x, y, size, c) == Channel(p, c) {
      UniformMeanChannel(img, x, y, size, c, p);
    }
  }

  /** The three channel sums over the block at (x, y), one sample at a time in row-major order. */
  method SumBlock(img: array2<Bgr>, x: int, y: int, size: int) returns (rSum: nat, gSum: nat, bSum: nat)
    requires size > 0 && InGrid(img, x, y, size)
    ensures rSum == BlockSum(img, x, y, size, size, 0)
    ensures gSum == BlockSum(img, x, y, size, size, 1)
    ensures bSum == BlockSum(img, x, y, size, size, 2)
  {
    rSum, gSum, bSum := 0, 0, 0;
    var i := 0;
    while i < size
      invariant 0 <= i <= size
      invariant rSum == BlockSum(img, x, y, i, size, 0)
      invariant gSum == BlockSum(img, x, y, i, size, 1)
      invariant bSum == BlockSum(img, x, y, i, size, 2)
    {
      var j := 0;
      while j < size
        invariant 0 <= j <= size
        invariant rSum == BlockSum(img, x, y, i, size, 0) + RowSum(img, y + i, x, j, 0)
        invariant gSum == BlockSum(img, x, y, i, size, 1) + RowSum(img, y + i, x, j, 1)
        invariant bSum == BlockSum(img, x, y, i, size, 2) + RowSum(img, y + i, x, j, 2)
      {
        var bgr := img[y + i, x + j];
        rSum, gSum, bSum := rSum + bgr.r, gSum + bgr.g, bSum + bgr.b;
        j := j + 1;
      }
      i := i + 1;
    }
  }

  /**
   * `get_pixel`: the floor-mean of each channel over the block at (x, y).
   * The source divides each sum by the number of samples, size * size.
   */
  method GetPixel(frame: EmbedSource, x: int, y: int) returns (rgb: Rgb)
    requires frame.Valid() && InGrid(frame.image, x, y, frame.size)
    ensures rgb == BlockMean(frame.image, x, y, frame.size)
    ensures forall p :: Uniform(frame.image, x, y, frame.size, p) ==> rgb == Rgb(p.r, p.g, p.b)
  {
    var rSum, gSum, bSum := SumBlock(frame.image, x, y, frame.size);
    var n := frame.size * frame.size;
    assert rSum / n == Mean(frame.image, x, y, frame.size, 0);
    assert gSum / n == Mean(frame.image, x, y, frame.size, 1);
    assert bSum / n == Mean(frame.image, x, y, frame.size, 2);
    rgb := Rgb(rSum / n, gSum / n, bSum / n);
    forall p | Uniform(frame.image, x, y, frame.size, p) ensures rgb == Rgb(p.r, p.g, p.b) {
      UniformMean(frame.image, x, y, frame.size, p);
    }
  }

  /** `etch_pixel`: every sample of the block at (x, y) becomes `rgb`, stored blue-green-red; nothing else changes. */
  method EtchPixel(frame: EmbedSource, x: int, y: int, rgb: Rgb)
    requires frame.Valid() && InGrid(frame.image, x, y, frame.size)
    modifies frame.image
    ensures Uniform(frame.image, x, y, frame.size, ToBgr(rgb))
    ensures forall i, j ::
      0 <= i < frame.image.Length0 && 0 <= j < frame.image.Length1 &&
      !(y <= i < y + frame.size && x <= j < x + frame.size) ==>
      frame.image[i, j] == old(frame.image[i, j])
  {
    var img, size := frame.image, frame.size;
    var i := 0;
    while i < size
      invariant 0 <= i <= size
      invariant forall a, b :: y <= a < y + i && x <= b < x + size ==> img[a, b] == ToBgr(rgb)
      invariant forall a, b ::
        0 <= a < img.Length0 && 0 <= b < img.Length1 && !(y <= a < y + i && x <= b < x + size) ==>
        img[a, b] == old(img[a, b])
    {
      var j := 0;
      while j < size
        invariant 0 <= j <= size
        invariant forall a, b ::
          (y <= a < y + i && x <= b < x + size) || (a == y + i && x <= b < x + j) ==>
          img[a, b] == ToBgr(rgb)
        invariant forall a, b ::
          0 <= a < img.Length0 && 0 <= b < img.Length1 &&
          !(y <= a < y + i && x <= b < x + size) && !(a == y + i && x <= b < x + j) ==>
          img[a, b] == old(img[a, b])
      {
        img[y + i, x + j] := ToBgr(rgb);
        j := j + 1;
      }
      i := i + 1;
    }
  }

  // ---------------------------------------------------------------------
  // Block layout: block k of a frame, in row-major order over the usable size

  /** Left edge of block `k`. */
  function BlockX(src: EmbedSource, k: nat): int
    requires src.Valid() && src.Cols() > 0
  {
    (k % src.Cols()) * src.size
  }

  /** Top edge of block `k`. */
  function BlockY(src: EmbedSource, k: nat): int
    requires src.Valid() && src.Cols() > 0
  {
    (k / src.Cols()) * src.size
  }

  /** Every block of a frame lies inside its usable area. */
  lemma BlockInside(src: EmbedSource, k: nat)
    requires src.Valid() && k < src.Blocks()
    ensures src.Cols() > 0
    ensures 0 <= BlockX(src, k) && BlockX(src, k) + src.size <= src.actualSize.width
    ensures 0 <= BlockY(src, k) && BlockY(src, k) + src.size <= src.actualSize.height
    ensures InGrid(src.image, BlockX(src, k), BlockY(src, k), src.size)
  {
    var c, r := src.Cols(), src.Rows();
    DivMod(k, c);
    MulNonNeg(k % c, src.size);
    MulNonNeg(k / c, src.size);
    MulBelow(k % c, c, src.size);
    if k / c >= r {
      MulMono(r, k / c, c);
    }
    MulBelow(k / c, r, src.size);
  }

  /** The block in row `br` and column `bc` of blocks is block `br * Cols + bc`. */
  lemma BlockAt(src: EmbedSource, br: nat, bc: nat)
    requires src.Valid() && bc < src.Cols()
    ensures BlockX(src, br * src.Cols() + bc) == bc * src.size
    ensures BlockY(src, br * src.Cols() + bc) == br * src.size
  {
    DivModUnique(br * src.Cols() + bc, src.Cols(), br, bc);
  }

  /** The block a row walk stands on at column offset `x` of block row `br`. */
  lemma RowCell(src: EmbedSource, br: nat, bc: nat, x: int)
    requires src.Valid() && br < src.Rows() && x == bc * src.size && x < src.actualSize.width
    ensures bc < src.Cols() && br * src.Cols() + bc < src.Blocks()
    ensures BlockX(src, br * src.Cols() + bc) == x && BlockY(src, br * src.Cols() + bc) == br * src.size
    ensures (bc + 1) * src.size == x + src.size
  {
    if bc >= src.Cols() {
      MulMono(src.Cols(), bc, src.size);
    }
    MulBelow(br, src.Rows(), src.Cols());
    BlockAt(src, br, bc);
  }

  /** A walk in steps of `size` leaves the usable width after exactly Cols steps. */
  lemma RowEnd(src: EmbedSource, bc: nat, x: int)
    requires src.Valid() && bc <= src.Cols() && x == bc * src.size && x >= src.actualSize.width
    ensures bc == src.Cols()
  {
    if bc < src.Cols() {
      MulBelow(bc, src.Cols(), src.size);
    }
  }

  /** The block, in row-major order, that sample (i, j) of the usable area falls in. */
  function BlockOf(src: EmbedSource, i: nat, j: nat): nat
    requires src.Valid()
  {
    MulNonNeg(i / src.size, src.Cols());
    (i / src.size) * src.Cols() + j / src.size
  }

  /** Sample (i, j) lies in block `k`. */
  predicate InBlock(src: EmbedSource, k: nat, i: int, j: int)
    requires src.Valid() && src.Cols() > 0
  {
    BlockY(src, k) <= i < BlockY(src, k) + src.size && BlockX(src, k) <= j < BlockX(src, k) + src.size
  }

  /** Samples of the usable area covered by the first `n` blocks. */
  predicate Covered(src: EmbedSource, i: int, j: int, n: nat)
    requires src.Valid()
  {
    0 <= i < src.actualSize.height && 0 <= j < src.actualSize.width && BlockOf(src, i, j) < n
  }

  /** Sample (i, j) of an r-by-c grid of s-by-s cells lies in cell (i / s) * c + j / s. */
  lemma GridCell(i: nat, j: nat, s: int, c: int, r: int)
    requires s > 0 && i < r * s && j < c * s
    ensures c > 0 && (i / s) * c + j / s < r * c
    ensures ((i / s) * c + j / s) / c == i / s && ((i / s) * c + j / s) % c == j / s
    ensures (i / s) * s <= i < (i / s) * s + s && (j / s) * s <= j < (j / s) * s + s
  {
    var qi, qj := i / s, j / s;
    DivMod(i, s);
    DivMod(j, s);
    if c <= 0 {
      MulMono(c, 0, s);
    }
    if qj >= c {
      MulMono(c, qj, s);
    }
    if qi >= r {
      MulMono(r, qi, s);
    }
    MulBelow(qi, r, c);
    DivModUnique(qi * c + qj, c, qi, qj);
  }

  /** A sample of the usable area lies in the block `BlockOf` names. */
  lemma BlockOfIn(src: EmbedSource, i: nat, j: nat)
    requires src.Valid()
    requires i < src.actualSize.height && j < src.actualSize.width
    ensures src.Cols() > 0 && BlockOf(src, i, j) < src.Blocks()
    ensures InBlock(src, BlockOf(src, i, j), i, j)
  {
    GridCell(i, j, src.size, src.Cols(), src.Rows());
  }

  /** A sample lies in no block but the one `BlockOf` names. */
  lemma BlockOfUnique(src: EmbedSource, k: nat, i: nat, j: nat)
    requires src.Valid() && src.Cols() > 0 && InBlock(src, k, i, j)
    ensures BlockOf(src, i, j) == k
  {
    var c, s := src.Cols(), src.size;
    DivMod(k, c);
    DivModUnique(i, s, k / c, i - BlockY(src, k));
    DivModUnique(j, s, k % c, j - BlockX(src, k));
  }

  /**
   * The frame shows the colours `cs`: every sample of the first |cs| blocks
   * has the colour of the block it lies in.
   */
  ghost predicate Shows(src: EmbedSource, cs: seq<Rgb>)
    requires src.Valid()
    reads src.image
  {
    |cs| <= src.Blocks() &&
    forall i, j :: Covered(src, i, j, |cs|) ==> src.image[i, j] == ToBgr(cs[BlockOf(src, i, j)])
  }

  /** Bits as the greys they are etched as. */
  function Greys(bits: seq<bool>): (cs: seq<Rgb>)
    ensures |cs| == |bits| && forall k :: 0 <= k < |bits| ==> cs[k] == Grey(bits[k])
  {
    seq(|bits|, k requires 0 <= k < |bits| => Grey(bits[k]))
  }

  /** Bytes grouped as red, green, blue triples; a trailing one or two bytes are not a colour. */
  function Triples(bytes: seq<Byte>): (cs: seq<Rgb>)
    ensures |cs| == |bytes| / 3
    ensures forall k :: 0 <= k < |cs| ==> cs[k] == Rgb(bytes[3 * k], bytes[3 * k + 1], bytes[3 * k + 2])
  {
    seq(|bytes| / 3, k requires 0 <= k < |bytes| / 3 => Rgb(bytes[3 * k], bytes[3 * k + 1], bytes[3 * k + 2]))
  }

  /**
   * Etches block |cs| with colour `c` through `etch_pixel`: the frame then shows
   * `cs + [c]` and every sample outside the first |cs| + 1 blocks is untouched.
   */
  method EtchBlock(source: EmbedSource, ghost cs: seq<Rgb>, x: int, y: int, c: Rgb)
    requires source.Valid() && Shows(source, cs) && |cs| < source.Blocks()
    requires source.Cols() > 0 && x == BlockX(source, |cs|) && y == BlockY(source, |cs|)
    modifies source.image
    ensures Shows(source, cs + [c])
    ensures forall i, j ::
      0 <= i < source.image.Length0 && 0 <= j < source.image.Length1 && !Covered(source, i, j, |cs| + 1) ==>
      source.image[i, j] == old(source.image[i, j])
  {
    BlockInside(source, |cs|);
    EtchPixel(source, x, y, c);
    forall i, j | Covered(source, i, j, |cs| + 1)
      ensures source.image[i, j] == ToBgr((cs + [c])[BlockOf(source, i, j)])
    {
      BlockOfIn(source, i, j);
      if InBlock(source, |cs|, i, j) {
        BlockOfUnique(source, |cs|, i, j);
      }
    }
    forall i, j |
      0 <= i < source.image.Length0 && 0 <= j < source.image.Length1 && !Covered(source, i, j, |cs| + 1)
      ensures source.image[i, j] == old(source.image[i, j])
    {
      if InBlock(source, |cs|, i, j) {
        BlockOfUnique(source, |cs|, i, j);
      }
    }
  }

  /**
   * The inner loop of `etch_bw` and `etch_color` over block row `br`, which
   * starts at colour `n`: etches the next colours of `cs` left to right and
   * stops as soon as `cs` runs out.
   */
  method EtchRow(source: EmbedSource, cs: seq<Rgb>, n: nat, ghost br: nat, y: int) returns (n': nat, stop: bool)
    requires source.Valid() && br < source.Rows() && n == br * source.Cols() && y == br * source.size
    requires n < |cs| && Shows(source, cs[..n])
    modifies source.image
    ensures stop <==> n + source.Cols() >= |cs|
    ensures n' == if stop then |cs| else n + source.Cols()
    ensures Shows(source, cs[..n'])
    ensures forall i, j ::
      0 <= i < source.image.Length0 && 0 <= j < source.image.Length1 && !Covered(source, i, j, n') ==>
      source.image[i, j] == old(source.image[i, j])
  {
    var width, size := source.actualSize.width, source.size;
    ghost var cols, rows := source.Cols(), source.Rows();
    assert n + cols <= |cs| ==> n + cols <= source.Blocks() by {
      MulMono(br + 1, rows, cols);
    }
    n' := n;
    var x := 0;
    ghost var bc := 0;
    while x < width
      invariant 0 <= bc <= cols && x == bc * size
      invariant n' == n + bc && n' < |cs|
      invariant Shows(source, cs[..n'])
      invariant forall i, j ::
        0 <= i < source.image.Length0 && 0 <= j < source.image.Length1 && !Covered(source, i, j, n') ==>
        source.image[i, j] == old(source.image[i, j])
    {
      RowCell(source, br, bc, x);
      EtchBlock(source, cs[..n'], x, y, cs[n']);
      assert cs[..n' + 1] == cs[..n'] + [cs[n']];
      n' := n' + 1;
      if n' >= |cs| {
        return n', true;
      }
      x := x + size;
      bc := bc + 1;
    }
    RowEnd(source, bc, x);
    stop := false;
  }

  /**
   * The block walk shared by `etch_bw` and `etch_color`: etches the colours
   * `cs` into the blocks row-major from block 0 and fails with "Index Beyond
   * Data" as soon as they run out; if every block is filled first it succeeds.
   * `n` is how many colours were etched.
   */
  method EtchBlocks(source: EmbedSource, cs: seq<Rgb>) returns (n: nat, r: Outcome)
    requires source.Valid() && |cs| > 0
    modifies source.image
    ensures r.Fail? <==> source.Blocks() >= |cs|
    ensures r.Fail? ==> r.msg == "Index Beyond Data"
    ensures n == if r.Fail? then |cs| else source.Blocks()
    ensures Shows(source, cs[..n])
    ensures forall i, j ::
      0 <= i < source.image.Length0 && 0 <= j < source.image.Length1 && !Covered(source, i, j, n) ==>
      source.image[i, j] == old(source.image[i, j])
  {
    var height, size := source.actualSize.height, source.size;
    ghost var cols, rows := source.Cols(), source.Rows();
    n := 0;
    var y := 0;
    ghost var br := 0;
    while y < height
      invariant 0 <= br <= rows && y == br * size
      invariant n == br * cols && n < |cs|
      invariant Shows(source, cs[..n])
      invariant forall i, j ::
        0 <= i < source.image.Length0 && 0 <= j < source.image.Length1 && !Covered(source, i, j, n) ==>
        source.image[i, j] == old(source.image[i, j])
    {
      if br >= rows {
        MulMono(rows, br, size);
      }
      var stop;
      n, stop := EtchRow(source, cs, n, br, y);
      MulMono(br + 1, rows, cols);
      if stop {
        return n, Fail("Index Beyond Data");
      }
      assert (br + 1) * cols == br * cols + cols;
      y := y + size;
      br := br + 1;
    }
    if br < rows {
      MulBelow(br, rows, size);
    }
    r := Pass;
  }

  /**
   * `etch_bw`: etches `data[index]`, `data[index + 1]`, … as grey 255 (true)
   * or 0 (false), one per block; the cursor ends one past the last bit etched.
   */
  method EtchBw(source: EmbedSource, data: seq<bool>, index: nat) returns (index': nat, r: Outcome)
    requires source.Valid() && index < |data|
    modifies source.image
    ensures r.Fail? <==> index + source.Blocks() >= |data|
    ensures r.Fail? ==> r.msg == "Index Beyond Data"
    ensures index' == if r.Fail? then |data| else index + source.Blocks()
    ensures Shows(source, Greys(data[index..index']))
    ensures forall i, j ::
      0 <= i < source.image.Length0 && 0 <= j < source.image.Length1 && !Covered(source, i, j, index' - index) ==>
      source.image[i, j] == old(source.image[i, j])
  {
    var cs := Greys(data[index..]);
    var n;
    n, r := EtchBlocks(source, cs);
    index' := index + n;
    assert cs[..n] == Greys(data[index..index']);
  }

  /**
   * `etch_color`: etches the byte triples at `index`, `index + 3`, … as one
   * colour per block. It fails once fewer than three bytes remain past the
   * cursor, which then stands on the first of them.
   */
  method EtchColor(source: EmbedSource, data: seq<Byte>, index: nat) returns (index': nat, r: Outcome)
    requires source.Valid() && index + 2 < |data|
    modifies source.image
    ensures r.Fail? <==> index + 3 * source.Blocks() + 2 >= |data|
    ensures r.Fail? ==> r.msg == "Index Beyond Data"
    ensures !r.Fail? ==> index' == index + 3 * source.Blocks()
    ensures r.Fail? ==> index' + 2 >= |data| && index' <= |data| && (index' - index) % 3 == 0
    ensures Shows(source, Triples(data[index..index']))
    ensures forall i, j ::
      0 <= i < source.image.Length0 && 0 <= j < source.image.Length1 && !Covered(source, i, j, (index' - index) / 3) ==>
      source.image[i, j] == old(source.image[i, j])
  {
    var cs := Triples(data[index..]);
    var n;
    n, r := EtchBlocks(source, cs);
    index' := index + 3 * n;
    assert cs[..n] == Triples(data[index..index']);
  }

  // ---------------------------------------------------------------------
  // Reading a frame back

  /**
   * What `get_pixel` reads from block `k`. Every block of a frame lies inside
   * it (`BlockInside`), so the guard only spares this definition that proof.
   */
  ghost function MeanAt(src: EmbedSource, k: nat): Rgb
    requires src.Valid()
    reads src.image
  {
    if src.Cols() > 0 && InGrid(src.image, BlockX(src, k), BlockY(src, k), src.size) then
      BlockMean(src.image, BlockX(src, k), BlockY(src, k), src.size)
    else
      Rgb(0, 0, 0)
  }

  /** The means of the first `n` blocks, in row-major order. */
  ghost function MeansUpTo(src: EmbedSource, n: nat): (ms: seq<Rgb>)
    requires src.Valid() && n <= src.Blocks()
    reads src.image
    ensures |ms| == n
  {
    if n == 0 then [] else MeansUpTo(src, n - 1) + [MeanAt(src, n - 1)]
  }

  /** Entry `k` of the means is what `get_pixel` reads from block `k`. */
  lemma {:induction false} MeansUpToAt(src: EmbedSource, n: nat, k: nat)
    requires src.Valid() && k < n <= src.Blocks()
    ensures MeansUpTo(src, n)[k] == MeanAt(src, k)
    decreases n
  {
    if k < n - 1 {
      MeansUpToAt(src, n - 1, k);
    }
  }

  /** The means of all blocks of a frame, in the order the readers visit them. */
  ghost function Means(src: EmbedSource): seq<Rgb>
    requires src.Valid()
    reads src.image
  {
    MeansUpTo(src, src.Blocks())
  }

  /** What `read_bw` makes of block means: a set bit wherever red is at least 127. */
  function Thresholds(ms: seq<Rgb>): (bits: seq<bool>)
    ensures |bits| == |ms| && forall k :: 0 <= k < |ms| ==> (bits[k] <==> ms[k].r >= 127)
  {
    seq(|ms|, k requires 0 <= k < |ms| => ms[k].r >= 127)
  }

  /** What `read_color` makes of block means: red, green, blue of each, in order. */
  function Channels(ms: seq<Rgb>): (bytes: seq<Byte>)
    ensures |bytes| == 3 * |ms|
    ensures forall k :: 0 <= k < |ms| ==>
      bytes[3 * k] == ms[k].r && bytes[3 * k + 1] == ms[k].g && bytes[3 * k + 2] == ms[k].b
  {
    if ms == [] then [] else
      var last := ms[|ms| - 1];
      Channels(ms[..|ms| - 1]) + [last.r, last.g, last.b]
  }

  /**
   * The tail of `read_bw` and `read_color`: on the final frame the data read is
   * cut to its first `cut` units; a `cut` outside the data fails, where the
   * source's slice panics.
   */
  function Truncate<T>(units: seq<T>, current: int, last: int, cut: int): (r: Result<seq<T>>)
    ensures current != last ==> r == Ok(units)
    ensures current == last ==> (r.Ok? <==> 0 <= cut <= |units|)
    ensures current == last && r.Ok? ==> r.value == units[..cut]
  {
    if current != last then Ok(units)
    else if 0 <= cut <= |units| then Ok(units[..cut])
    else Err("slice index out of range")
  }

  /**
   * The block walk shared by `read_bw` and `read_color`: `get_pixel` on each
   * block, row-major; its results in order.
   */
  method ReadBlocks(source: EmbedSource) returns (ms: seq<Rgb>)
    requires source.Valid()
    ensures ms == Means(source)
  {
    var width, height, size := source.actualSize.width, source.actualSize.height, source.size;
    ghost var cols, rows := source.Cols(), source.Rows();
    ms := [];
    var y := 0;
    ghost var br := 0;
    while y < height
      invariant 0 <= br <= rows && y == br * size
      invariant |ms| == br * cols && |ms| <= source.Blocks() && ms == MeansUpTo(source, |ms|)
    {
      if br >= rows {
        MulMono(rows, br, size);
      }
      ms := ReadRow(source, ms, br, y);
      assert (br + 1) * cols == br * cols + cols;
      if br + 1 <= rows {
        MulMono(br + 1, rows, cols);
      }
      y := y + size;
      br := br + 1;
    }
    if br < rows {
      MulBelow(br, rows, size);
    }
    assert ms == Means(source);
  }

  /** `get_pixel` on block `k`, whose corner is (x, y). */
  method ReadBlock(source: EmbedSource, x: int, y: int, ghost k: nat) returns (rgb: Rgb)
    requires source.Valid() && k < source.Blocks() && source.Cols() > 0
    requires x == BlockX(source, k) && y == BlockY(source, k)
    ensures rgb == MeanAt(source, k)
  {
    BlockInside(source, k);
    rgb := GetPixel(source, x, y);
  }

  /** The inner loop of the readers over block row `br`. */
  method ReadRow(source: EmbedSource, ms: seq<Rgb>, ghost br: nat, y: int) returns (ms': seq<Rgb>)
    requires source.Valid() && br < source.Rows() && |ms| == br * source.Cols() && y == br * source.size
    requires |ms| <= source.Blocks() && ms == MeansUpTo(source, |ms|)
    ensures |ms'| == |ms| + source.Cols() && |ms'| <= source.Blocks() && ms' == MeansUpTo(source, |ms'|)
  {
    var width, size := source.actualSize.width, source.size;
    ms' := ms;
    var x := 0;
    ghost var bc := 0;
    while x < width
      invariant 0 <= bc <= source.Cols() && x == bc * size
      invariant |ms'| == |ms| + bc && |ms'| <= source.Blocks() && ms' == MeansUpTo(source, |ms'|)
    {
      RowCell(source, br, bc, x);
      var rgb := ReadBlock(source, x, y, |ms'|);
      ms' := ms' + [rgb];
      x := x + size;
      bc := bc + 1;
    }
    RowEnd(source, bc, x);
  }

  /**
   * `read_bw`: one bit per block, set when the block's mean red is at least
   * 127; on the final frame only the first `finalBit` bits.
   */
  method ReadBw(source: EmbedSource, current: int, last: int, finalBit: int) returns (r: Result<seq<bool>>)
    requires source.Valid()
    ensures r == Truncate(Thresholds(Means(source)), current, last, finalBit)
  {
    var ms := ReadBlocks(source);
    r := Truncate(Thresholds(ms), current, last, finalBit);
  }

  /**
   * `read_color`: three bytes per block, the red, green and blue means; on the
   * final frame only the first `finalByte` bytes.
   */
  method ReadColor(source: EmbedSource, current: int, last: int, finalByte: int) returns (r: Result<seq<Byte>>)
    requires source.Valid()
    ensures r == Truncate(Channels(Means(source)), current, last, finalByte)
  {
    var ms := ReadBlocks(source);
    r := Truncate(Channels(ms), current, last, finalByte);
  }

  // ---------------------------------------------------------------------
  // Round trips

  /** A block of a frame that shows `cs` reads back as the colour it shows. */
  lemma ShownMean(src: EmbedSource, cs: seq<Rgb>, k: nat)
    requires src.Valid() && Shows(src, cs) && k < |cs|
    ensures MeanAt(src, k) == cs[k]
  {
    BlockInside(src, k);
    var x, y := BlockX(src, k), BlockY(src, k);
    forall i, j | y <= i < y + src.size && x <= j < x + src.size && 0 <= i < src.image.Length0 && 0 <= j < src.image.Length1
      ensures src.image[i, j] == ToBgr(cs[k])
    {
      BlockOfUnique(src, k, i, j);
    }
    UniformMean(src.image, x, y, src.size, ToBgr(cs[k]));
  }

  /** Reading a frame that shows `cs` yields `cs` as the means of its first |cs| blocks. */
  lemma ShownMeans(src: EmbedSource, cs: seq<Rgb>)
    requires src.Valid() && Shows(src, cs)
    ensures Means(src)[..|cs|] == cs
  {
    forall k | 0 <= k < |cs| ensures Means(src)[k] == cs[k] {
      MeansUpToAt(src, src.Blocks(), k);
      ShownMean(src, cs, k);
    }
  }

  /** Thresholding undoes etching bits as greys. */
  lemma ThresholdsGreys(bits: seq<bool>)
    ensures Thresholds(Greys(bits)) == bits
  {
  }

  /** Splitting triples back into channels undoes grouping bytes, up to a trailing one or two bytes. */
  lemma ChannelsTriples(bytes: seq<Byte>)
    ensures Channels(Triples(bytes)) == bytes[..3 * (|bytes| / 3)]
  {
    var cs := Triples(bytes);
    forall t | 0 <= t < 3 * |cs| ensures Channels(cs)[t] == bytes[t] {
      var k := t / 3;
      assert Channels(cs)[3 * k] == bytes[3 * k];
      assert Channels(cs)[3 * k + 1] == bytes[3 * k + 1];
      assert Channels(cs)[3 * k + 2] == bytes[3 * k + 2];
      assert t == 3 * k || t == 3 * k + 1 || t == 3 * k + 2;
    }
  }

  /** A frame etched by `etch_bw` from cursor `index` to `index'` reads back those bits. */
  lemma BwRoundTrip(src: EmbedSource, data: seq<bool>, index: nat, index': nat)
    requires src.Valid() && index <= index' <= |data| && Shows(src, Greys(data[index..index']))
    ensures Thresholds(Means(src))[..index' - index] == data[index..index']
  {
    var cs := Greys(data[index..index']);
    ShownMeans(src, cs);
    ThresholdsGreys(data[index..index']);
    assert Thresholds(Means(src))[..|cs|] == Thresholds(Means(src)[..|cs|]);
  }

  /** A frame etched by `etch_color` from cursor `index` to `index'` reads back those bytes. */
  lemma ColorRoundTrip(src: EmbedSource, data: seq<Byte>, index: nat, index': nat)
    requires src.Valid() && index <= index' <= |data| && (index' - index) % 3 == 0
    requires Shows(src, Triples(data[index..index']))
    ensures Channels(Means(src))[..index' - index] == data[index..index']
  {
    var d := data[index..index'];
    var cs, ms := Triples(d), Means(src);
    DivMod(|d|, 3);
    assert 3 * |cs| == |d|;
    ShownMeans(src, cs);
    ChannelsTriples(d);
    ChannelsPrefix(ms, |cs|);
    assert d[..3 * (|d| / 3)] == d;
  }

  lemma {:induction false} ChannelsPrefix(ms: seq<Rgb>, n: nat)
    requires n <= |ms|
    ensures Channels(ms)[..3 * n] == Channels(ms[..n])
    decreases |ms|
  {
    if n < |ms| {
      var init := ms[..|ms| - 1];
      ChannelsPrefix(init, n);
      assert init[..n] == ms[..n];
    } else {
      assert ms[..n] == ms;
    }
  }
}
