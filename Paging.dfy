/**
 * Page geometry and the Java integer arithmetic of RandomAccessBufferedFile:
 * the page size, the page-aligned offset of a file position, the length
 * clamp of a buffered read, and the narrowing `(int)` cast.
 */
module Paging {

  /** `pageSize = 1 << pageSizeShift`, with `pageSizeShift = 12`. */
  const PageSize: int := 4096

  /** `maxCachedPages`: the capacity of the page cache. */
  const MaxCachedPages: int := 1000

  /** `curPageOffset` before the first seek. */
  const NoPage: int := -1

  const IntMin: int := -0x8000_0000
  const IntMax: int := 0x7FFF_FFFF
  const LongMax: int := 0x7FFF_FFFF_FFFF_FFFF

  function Min(a: int, b: int): int
  {
    if a <= b then a else b
  }

  /** A valid page key: a non-negative multiple of the page size. */
  predicate Aligned(p: int)
  {
    p >= 0 && p % PageSize == 0
  }

  /**
   * `offset & pageOffsetMask` for a non-negative offset: the offset rounded
   * down to the start of the page that contains it.
   */
  function PageOffset(o: int): (p: int)
    requires o >= 0
    ensures Aligned(p) && p <= o < p + PageSize
  {
    o - o % PageSize
  }

  /** The page that contains `o` is the only aligned offset within a page below `o`. */
  lemma PageOffsetUnique(o: int, p: int)
    requires o >= 0 && Aligned(p) && p <= o < p + PageSize
    ensures PageOffset(o) == p
  {
  }

  /** The page after an aligned page is aligned, and is its own page offset. */
  lemma NextPageAligned(p: int)
    requires Aligned(p)
    ensures Aligned(p + PageSize) && PageOffset(p + PageSize) == p + PageSize
  {
  }

  /**
   * A run of `n` bytes starting at `o` that fits in what is left of o's page
   * ends in that same page: a copy of that length never spans two pages.
   */
  lemma ChunkStaysInPage(o: int, n: int)
    requires o >= 0 && 1 <= n <= PageSize - o % PageSize
    ensures PageOffset(o + n - 1) == PageOffset(o)
  {
  }

  /**
   * The length `read(b, off, len)` copies, computed as the source does:
   * the room left in the page or `len`, whichever is less, clamped by the
   * bytes left in the file only when fewer than a page remain. This
   * conditional clamp is the three-way minimum.
   */
  function CommonLen(offsetWithinPage: int, len: int, remaining: int): (n: int)
    requires 0 <= offsetWithinPage
    ensures n == Min(Min(PageSize - offsetWithinPage, len), remaining)
  {
    var common := Min(PageSize - offsetWithinPage, len);
    if remaining < PageSize then Min(common, remaining) else common
  }

  /** Java's narrowing cast `(int)` of a long: keep the low 32 bits, two's complement. */
  function ToInt(x: int): (r: int)
    ensures IntMin <= r <= IntMax
    ensures (x - r) % 0x1_0000_0000 == 0
    ensures IntMin <= x <= IntMax ==> r == x
  {
    (x - IntMin) % 0x1_0000_0000 + IntMin
  }

  /**
   * `available()` as written: `(int) Math.min(fileLength - fileOffset,
   * Integer.MAX_VALUE)`. Past the end of the file the difference is
   * negative, and the cast keeps only its low 32 bits.
   */
  function AvailableAsWritten(fileLength: int, fileOffset: int): (n: int)
    ensures IntMin <= n <= IntMax
    ensures fileOffset <= fileLength ==> n == Remaining(fileLength, fileOffset)
  {
    ToInt(Min(fileLength - fileOffset, IntMax))
  }

  /**
   * Past the end of the file `available()` as written is wrong: one byte
   * past the end of an empty file it reports -1 bytes, and 2^32 - 5 bytes
   * past the end it reports 5 bytes, none of which can be read.
   */
  lemma AvailablePastEnd()
    ensures AvailableAsWritten(0, 1) == -1 && Remaining(0, 1) == 0
    ensures AvailableAsWritten(0, 0xFFFF_FFFB) == 5 && Remaining(0, 0xFFFF_FFFB) == 0
  {
  }

  /**
   * The bytes left to read from `fileOffset` on, capped at Integer.MAX_VALUE:
   * never negative, and zero exactly at or past the end of the file.
   */
  function Remaining(fileLength: int, fileOffset: int): (n: int)
    ensures 0 <= n <= IntMax
    ensures n == 0 <==> fileOffset >= fileLength
    ensures fileOffset <= fileLength && fileLength - fileOffset <= IntMax ==> n == fileLength - fileOffset
    ensures fileLength - fileOffset > IntMax ==> n == IntMax
  {
    if fileOffset >= fileLength then 0 else Min(fileLength - fileOffset, IntMax)
  }
}
