/** Where a frame is stored: frames are kept in blocks `data_000000` or
    `data_000001` onwards, each holding `perBlock` consecutive frames. */
module BlockIndex {
  import opened Wrappers
  import opened CInts
  import opened Paths

  datatype Layout = Layout(start: int, perBlock: int)

  datatype Address = Address(block: int, offset: int)

  datatype SetupError = OpenFailed(name: string) | NotRank3(name: string)

  /** Blocks are numbered from 0 when `data_000000` exists, else from 1. */
  function BlockStart(hasBlockZero: bool): (start: int)
    ensures start == 0 || start == 1
    ensures start == 0 <==> hasBlockZero
  {
    if hasBlockZero then 0 else 1
  }

  /** The probe of the first block (`rank` and leading dimension `dims0`
      when it opens, `None` when it does not). The leading dimension, a
      64-bit unsigned count, is stored into an `int`. Both failures end the
      program. */
  function ProbeLayout(hasBlockZero: bool, firstBlock: Option<(int, nat)>): (r: Result<Layout, SetupError>)
    ensures firstBlock.None? ==> r == Err(OpenFailed(BlockName(BlockStart(hasBlockZero))))
    ensures firstBlock.Some? && firstBlock.value.0 != 3 ==>
              r == Err(NotRank3(BlockName(BlockStart(hasBlockZero))))
    ensures r.Ok? <==> firstBlock.Some? && firstBlock.value.0 == 3
    ensures r.Ok? ==> r.value.start == BlockStart(hasBlockZero)
    ensures r.Ok? && firstBlock.value.1 < TWO31 ==> r.value.perBlock == firstBlock.value.1
  {
    var start := BlockStart(hasBlockZero);
    match firstBlock
    case None => Err(OpenFailed(BlockName(start)))
    case Some((rank, dims0)) =>
      if rank != 3 then Err(NotRank3(BlockName(start)))
      else Ok(Layout(start, ToSigned32(dims0 % TWO32)))
  }

  /** `block_start + (frame - 1) / number_per_block` and
      `(frame - 1) % number_per_block`, with C's truncating division. Every
      real frame lands inside a block, at the offset that puts it back where
      it came from; a frame before the first (0, or the -1 visited when only
      `-e` is given) lands before the first block or at a negative offset. */
  function BlockFor(frame: int, layout: Layout): (a: Address)
    requires layout.perBlock > 0
    ensures InLayout(a, layout) <==> frame >= 1
    ensures frame >= 1 ==> FrameAt(a, layout) == frame
  {
    Address(layout.start + CDiv(frame - 1, layout.perBlock), CMod(frame - 1, layout.perBlock))
  }

  /** The frame stored at an address: the inverse of `BlockFor`. */
  function FrameAt(a: Address, layout: Layout): int
  {
    (a.block - layout.start) * layout.perBlock + a.offset + 1
  }

  predicate InLayout(a: Address, layout: Layout)
  {
    a.block >= layout.start && 0 <= a.offset < layout.perBlock
  }

  lemma DivModUnique(a: int, b: int, q: int, r: int)
    requires b > 0 && 0 <= r < b && a == q * b + r
    ensures a / b == q && a % b == r
  {
    var q', r' := a / b, a % b;
    assert (q - q') * b == r' - r;
    if q > q' {
      assert (q - q') * b >= b by {
        MulAtLeast(q - q', b);
      }
    } else if q < q' {
      assert (q' - q) * b >= b by {
        MulAtLeast(q' - q, b);
      }
    }
  }

  lemma MulAtLeast(k: int, b: int)
    requires k >= 1 && b > 0
    ensures k * b >= b
  {
  }

  /** Every address inside a block holds the frame `FrameAt` names. */
  lemma FrameAtInverse(a: Address, layout: Layout)
    requires layout.perBlock > 0 && InLayout(a, layout)
    ensures FrameAt(a, layout) >= 1
    ensures BlockFor(FrameAt(a, layout), layout) == a
  {
    var q := a.block - layout.start;
    var n := q * layout.perBlock + a.offset;
    assert n >= 0 by {
      assert q * layout.perBlock >= 0;
    }
    assert FrameAt(a, layout) - 1 == n;
    DivModUnique(n, layout.perBlock, q, a.offset);
    assert CDiv(n, layout.perBlock) == q;
    assert CMod(n, layout.perBlock) == n - q * layout.perBlock;
  }

  /** Distinct real frames are read from distinct places. */
  lemma BlockForInjective(f1: int, f2: int, layout: Layout)
    requires f1 >= 1 && f2 >= 1 && layout.perBlock > 0
    ensures f1 != f2 ==> BlockFor(f1, layout) != BlockFor(f2, layout)
  {
  }

  /** Frame -1 (visited when only `-e` is given) is sent to a negative
      offset, which the hyperslab selection rejects. */
  lemma BlockForBeforeFirstFrame(frame: int, layout: Layout)
    requires frame <= 0 && layout.perBlock > 1 - frame
    ensures BlockFor(frame, layout) == Address(layout.start, frame - 1)
  {
  }
}
