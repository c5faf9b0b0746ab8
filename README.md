# RandomAccessBufferedFile, modelled in Dafny

PDFBox's `RandomAccessBufferedFile` reads a file at random positions through
4096-byte pages that start at multiples of 4096. It keeps up to 1000 pages in
an access-ordered LRU cache (a `LinkedHashMap` whose `removeEldestEntry` drops
the eldest entry once the map holds more than `maxCachedPages`). The buffer of
an evicted page is kept in `lastRemovedCachePage` and refilled by the next
page load. A cursor in four fields tracks the position: `fileOffset`,
`curPageOffset`, `curPage` and `offsetWithinPage`. `seek`, `read()`,
`read(b, off, len)`, `read(b)`, `peek`, `rewind`, `isEOF` and `available` all
work through that cursor.

The project has five files:

- `Paging.dfy` (module `Paging`): the page geometry.
  - The page offset of a position is `o - o % 4096`. The source computes
    it with the mask `-1L << 12`; the model uses the arithmetic form.
  - The length clamp of `read(b, off, len)`.
  - Java's narrowing `(int)` cast, the arithmetic of `available()`, and the
    corrected `available()`.
- `Recency.dfy` (module `Recency`): the meaning of "least recently used".
  - A cache keeps its keys in a sequence from least to most recently used.
    An access moves a key to the end (`Touch`).
  - A separate `history` records every touch by a `get` hit or a `put`.
  - `RecencyOrdered` says the key sequence is the resident keys sorted by the
    time of their last touch.
- `LruCache.dfy` (module `LruCache`): the class `PageCache`, an access-ordered
  bounded map.
  - Its fields are the key sequence (the map's linked list), the entries, and a
    ghost history.
  - `Put` returns the evicted value instead of calling back into the reader.
- `FileHandle.dfy` (module `FileHandle`): a stand-in for
  `java.io.RandomAccessFile`. It opens one file, given as `content`.
  - `Read` returns at least one byte of the requested range, or -1 at the end
    of the file.
  - How many bytes one call returns is left open. It is chosen
    nondeterministically.
- `BufferedFile.dfy` (module `BufferedFile`): the class
  `RandomAccessBufferedFile`.
  - Its fields are the source's fields. Pages are `array<bv8>`.
  - The ghost constant `file` holds the file's bytes. The ghost variable
    `Repr` holds the objects the reader owns.

`CacheInv` is the cache invariant of the reader:
- at most 1000 pages are cached, each under an aligned offset;
- each cached page holds the file's bytes from its offset up to the end of
  the page or of the file, whichever comes first, and the bytes past the end
  of the file are filler;
- no buffer is cached twice;
- the recycled buffer is not cached at all.

`CursorInv` is the cursor invariant:
- `fileOffset == curPageOffset + offsetWithinPage`, with
  `0 <= offsetWithinPage <= 4096`;
- the resident page holds the file's bytes;
- while the reader is open, the resident page is the cache's most recently
  used entry.

Every public method keeps both invariants. The helpers of `seek`
(`MakeResident`, `FetchPage`, `LoadPage`, `CachePage`) keep `CacheInv`;
`ReadPage` works below the invariants and states the page it fills.

The two-state predicate `Fetched` states what fetching a page does to the
cache: a hit only touches its key; a miss puts the recycled buffer (or a new
one) under the key, and at the bound evicts the least recently used entry and
keeps its buffer for recycling. `FetchPage`, `MakeResident`, `Seek` on a page
change, `rewind` on a page change, and `read()`, `read(b, off, len)`, `read(b)`,
`peek` and `isEOF` when they step onto the next page all ensure it.

Several results follow from the two invariants:
- every byte `read()` and `read(b, off, len)` return is the file's byte at
  that position, so filler is never exposed;
- a copy never spans two pages;
- `ReadToEnd` shows that repeated `read(b)` calls yield exactly the rest of
  the file, for any non-empty `b`.

Where the reader's documented contract and its code disagree:
- `isEOF()` is `peek() == -1`, which holds whenever the position is at or past
  the end (not only at the end). The model follows the code.
- `available()` as written is not `max(0, length - position)`. The code as
  written is `Paging.AvailableAsWritten`; the reader's `Available` is the
  corrected count, `Paging.Remaining`. See Findings.
- `read(b, off, 0)` returns 0, even at a position inside the file. The model
  follows the code.
- Use after `close` is not turned into an error. The code does not guard it,
  so only the state `close` leaves behind is modelled.

## Model

| member | source | states |
|---|---|---|
| Paging.PageOffset | pdfbox/src/main/java/org/apache/pdfbox/io/RandomAccessBufferedFile.java:110 | the page offset of a position is aligned, at most the position, and within one page below it |
| Paging.PageOffsetUnique | pdfbox/src/main/java/org/apache/pdfbox/io/RandomAccessBufferedFile.java:110 | the page offset is the only aligned offset within one page below the position |
| Paging.NextPageAligned | pdfbox/src/main/java/org/apache/pdfbox/io/RandomAccessBufferedFile.java:170-173 | the end of an aligned page is the start of the next aligned page |
| Paging.ChunkStaysInPage | pdfbox/src/main/java/org/apache/pdfbox/io/RandomAccessBufferedFile.java:198-204 | a run that fits in what is left of its page ends in that page |
| Paging.CommonLen | pdfbox/src/main/java/org/apache/pdfbox/io/RandomAccessBufferedFile.java:198-202 | the conditional clamp computes `min(pageSize - offsetWithinPage, len, fileLength - fileOffset)` |
| Paging.ToInt | pdfbox/src/main/java/org/apache/pdfbox/io/RandomAccessBufferedFile.java:215 | Java's `(int)` cast lands in the int range, agrees with its argument modulo 2^32, and is the identity on int values |
| Paging.AvailableAsWritten | pdfbox/src/main/java/org/apache/pdfbox/io/RandomAccessBufferedFile.java:213-216 | `available()` as written is an int; up to the end of the file it agrees with `Remaining` |
| Paging.AvailablePastEnd | pdfbox/src/main/java/org/apache/pdfbox/io/RandomAccessBufferedFile.java:215 | past the end, `available()` as written reports -1 bytes, or 5 bytes that cannot be read |
| Paging.Remaining | pdfbox/src/main/java/org/apache/pdfbox/io/RandomAccessBufferedFile.java:213-216 | the bytes left, capped at `Integer.MAX_VALUE`: never negative, zero exactly at or past the end, exact while below the cap |
| Recency.Without | pdfbox/src/main/java/org/apache/pdfbox/io/RandomAccessBufferedFile.java:43-44 | unlinking a key removes exactly that key, keeps the keys distinct, and shortens the sequence by one |
| Recency.Touch | pdfbox/src/main/java/org/apache/pdfbox/io/RandomAccessBufferedFile.java:43-44 | an access makes the key the last one and keeps the set of keys, adding the key if it was absent |
| Recency.RecencyOrderedIsDistinct | pdfbox/src/main/java/org/apache/pdfbox/io/RandomAccessBufferedFile.java:43-44 | keys sorted by last touch occur once each |
| Recency.WithoutKeepsRecency | pdfbox/src/main/java/org/apache/pdfbox/io/RandomAccessBufferedFile.java:43-44 | unlinking a key keeps the rest sorted by last touch |
| Recency.TouchKeepsRecency | pdfbox/src/main/java/org/apache/pdfbox/io/RandomAccessBufferedFile.java:113 | a `get` hit or a `put` keeps the key sequence sorted by last touch once the touch is recorded |
| Recency.DropEldestKeepsRecency | pdfbox/src/main/java/org/apache/pdfbox/io/RandomAccessBufferedFile.java:49-57 | removing the eldest key keeps the rest sorted by last touch |
| Recency.EldestIsLeastRecent | pdfbox/src/main/java/org/apache/pdfbox/io/RandomAccessBufferedFile.java:49-57 | the eldest key was last touched before every other resident key |
| LruCache.TouchConsistent | pdfbox/src/main/java/org/apache/pdfbox/io/RandomAccessBufferedFile.java:43-58 | a hit, a replacement or an insertion below the bound keeps the map, its list, the bound and the access order consistent |
| LruCache.EvictConsistent | pdfbox/src/main/java/org/apache/pdfbox/io/RandomAccessBufferedFile.java:49-57 | an insertion at the bound that drops the eldest key restores the bound; the dropped key was touched least recently |
| LruCache.PageCache.constructor | pdfbox/src/main/java/org/apache/pdfbox/io/RandomAccessBufferedFile.java:43-44 | a new cache is empty and consistent |
| LruCache.PageCache.Size | pdfbox/src/main/java/org/apache/pdfbox/io/RandomAccessBufferedFile.java:51 | the number of entries, never above the bound |
| LruCache.PageCache.Get | pdfbox/src/main/java/org/apache/pdfbox/io/RandomAccessBufferedFile.java:113 | a hit returns the cached value and makes its key the most recently used; a miss changes nothing |
| LruCache.PageCache.Put | pdfbox/src/main/java/org/apache/pdfbox/io/RandomAccessBufferedFile.java:43-58 | a put touches its key; past the bound exactly the eldest entry is removed and returned; it was touched less recently than every remaining entry, and nothing else changes |
| LruCache.PageCache.Clear | pdfbox/src/main/java/org/apache/pdfbox/io/RandomAccessBufferedFile.java:228 | no entries remain |
| FileHandle.RandomAccessFile.Seek | pdfbox/src/main/java/org/apache/pdfbox/io/RandomAccessBufferedFile.java:116 | the file pointer moves to the given position |
| FileHandle.RandomAccessFile.Read | pdfbox/src/main/java/org/apache/pdfbox/io/RandomAccessBufferedFile.java:150-155 | -1 exactly at or past the end, changing nothing; otherwise 1 to `len` of the file's next bytes, copied in place, with the pointer advanced |
| FileHandle.RandomAccessFile.Close | pdfbox/src/main/java/org/apache/pdfbox/io/RandomAccessBufferedFile.java:227 | the file is closed |
| BufferedFile.AdmitUnshared | pdfbox/src/main/java/org/apache/pdfbox/io/RandomAccessBufferedFile.java:117-118 | caching a buffer no entry holds keeps the cached buffers distinct |
| BufferedFile.EvictUnshared | pdfbox/src/main/java/org/apache/pdfbox/io/RandomAccessBufferedFile.java:54 | the evicted buffer is held by no remaining entry |
| BufferedFile.AdmitPage | pdfbox/src/main/java/org/apache/pdfbox/io/RandomAccessBufferedFile.java:113-118 | caching a page that holds the file's bytes keeps every cached page right, the buffers distinct, and the evicted buffer out of the cache |
| BufferedFile.RandomAccessBufferedFile.constructor | pdfbox/src/main/java/org/apache/pdfbox/io/RandomAccessBufferedFile.java:86-91 | a new reader over an open file is valid and at position 0 with page 0 resident; the cache holds page 0 alone, as its only key, and there is no recycled buffer |
| BufferedFile.RandomAccessBufferedFile.GetPosition | pdfbox/src/main/java/org/apache/pdfbox/io/RandomAccessBufferedFile.java:95-98 | the position is non-negative and is the resident page's offset plus the offset within it |
| BufferedFile.RandomAccessBufferedFile.Length | pdfbox/src/main/java/org/apache/pdfbox/io/RandomAccessBufferedFile.java:219-222 | the length of the file |
| BufferedFile.RandomAccessBufferedFile.IsClosed | pdfbox/src/main/java/org/apache/pdfbox/io/RandomAccessBufferedFile.java:233-236 | whether the file was closed; a closed reader caches nothing |
| BufferedFile.RandomAccessBufferedFile.Available | pdfbox/src/main/java/org/apache/pdfbox/io/RandomAccessBufferedFile.java:213-216 | corrected `available()`: between 0 and `Integer.MAX_VALUE`, 0 exactly at or past the end, the bytes left when they fit in an int and `Integer.MAX_VALUE` when they do not |
| BufferedFile.RandomAccessBufferedFile.Seek | pdfbox/src/main/java/org/apache/pdfbox/io/RandomAccessBufferedFile.java:108-126 | the position becomes `newOffset`, the resident page is the one containing it, and the offset within the page is below 4096; the resident page is not the recycled buffer; within the resident page neither it nor the cache changes; on a page change the cache changes as `Fetched` says (hit, miss, eviction) |
| BufferedFile.RandomAccessBufferedFile.MakeResident | pdfbox/src/main/java/org/apache/pdfbox/io/RandomAccessBufferedFile.java:111-122 | on a page change the fetched page becomes the resident page: it holds the file's bytes at that page, is its most recently used key, is not the recycled buffer, and the cache changes as `Fetched` says; the position and the offset within the page are untouched |
| BufferedFile.RandomAccessBufferedFile.FetchPage | pdfbox/src/main/java/org/apache/pdfbox/io/RandomAccessBufferedFile.java:113-119 | the page ends up cached as the most recently used entry, and `Fetched` holds: on a hit the cache only touches it; on a miss the recycled buffer (or a new one) is loaded and put, evicting the eldest page at the bound |
| BufferedFile.RandomAccessBufferedFile.LoadPage | pdfbox/src/main/java/org/apache/pdfbox/io/RandomAccessBufferedFile.java:116-118 | the miss path: the page is read into the recycled buffer, or a fresh one, and cached; at the bound the eldest entry goes and its buffer is kept for recycling |
| BufferedFile.RandomAccessBufferedFile.CachePage | pdfbox/src/main/java/org/apache/pdfbox/io/RandomAccessBufferedFile.java:118 | the `put` of `seek` with its eviction hook keeps the cache invariant and records the evicted buffer |
| BufferedFile.RandomAccessBufferedFile.ReadPage | pdfbox/src/main/java/org/apache/pdfbox/io/RandomAccessBufferedFile.java:133-160 | uses up the recycled buffer or allocates one; the page then holds the file's bytes from the file pointer up to a page or the end of the file |
| BufferedFile.RandomAccessBufferedFile.SeekAtPageEnd | pdfbox/src/main/java/org/apache/pdfbox/io/RandomAccessBufferedFile.java:170-173 | a cursor at the end of its page seeks to its own position, after which the resident page is the one containing the position and the offset within it is below 4096; a cursor inside its page leaves the reader and the cache unchanged |
| BufferedFile.RandomAccessBufferedFile.Read | pdfbox/src/main/java/org/apache/pdfbox/io/RandomAccessBufferedFile.java:163-177 | -1 exactly at or past the end, changing nothing; otherwise the file's byte at the position, in 0..255, with the position advanced by one; inside the page the resident page, the cache and the recycled buffer are unchanged, at the page's end the next page is fetched as `Fetched` says |
| BufferedFile.RandomAccessBufferedFile.ReadBytes | pdfbox/src/main/java/org/apache/pdfbox/io/RandomAccessBufferedFile.java:186-210 | -1 exactly at or past the end; otherwise the three-way minimum of bytes, equal to the file's bytes at the position, copied into `b[off..off+n]`, `b` unchanged elsewhere, within one page, position advanced by `n`; inside the page the resident page, the cache and the recycled buffer are unchanged, at the page's end the next page is fetched as `Fetched` says |
| BufferedFile.RandomAccessBufferedFile.ReadInPage | pdfbox/src/main/java/org/apache/pdfbox/io/RandomAccessBufferedFile.java:198-209 | the clamp, the copy and the cursor advance of `read(b, off, len)` inside the resident page |
| BufferedFile.RandomAccessBufferedFile.ReadArray | pdfbox/src/main/java/org/apache/pdfbox/io/RandomAccessBufferedFile.java:180-183 | `read(b, 0, b.length)` with that call's whole contract: -1 exactly at or past the end; otherwise the clamped count of the file's bytes in `b[..n]`, the rest of `b` kept, within one page, with the same cache effect |
| BufferedFile.RandomAccessBufferedFile.Rewind | pdfbox/src/main/java/org/apache/pdfbox/io/RandomAccessBufferedFile.java:250-253 | the position moves back by `bytes`; the resident page is the one containing the new position; within the same page the resident page, the cache and the recycled buffer are unchanged, and on a page change the cache changes as `Fetched` says |
| BufferedFile.RandomAccessBufferedFile.Peek | pdfbox/src/main/java/org/apache/pdfbox/io/RandomAccessBufferedFile.java:239-247 | returns what `read()` would return and leaves the position unchanged; after a byte is returned the resident page is the one containing the position; the cache changes only as that `read()` changes it: not at all inside the page or at the end of the file, as `Fetched` says when the next page is loaded |
| BufferedFile.RandomAccessBufferedFile.IsEOF | pdfbox/src/main/java/org/apache/pdfbox/io/RandomAccessBufferedFile.java:256-259 | true exactly when the position is at or past the length; the position is unchanged; when false the resident page is the one containing the position, and the cache changes only as the `peek()` it calls changes it |
| BufferedFile.RandomAccessBufferedFile.Close | pdfbox/src/main/java/org/apache/pdfbox/io/RandomAccessBufferedFile.java:225-230 | the file is closed, the cache is empty with its history kept, and the reader reports closed; only the file, the cache and the closed flag change: the cursor, the resident page, the recycled buffer and every page buffer stay as they were |
| BufferedFile.CopyFromPage | pdfbox/src/main/java/org/apache/pdfbox/io/RandomAccessBufferedFile.java:204 | the `arraycopy` out of a page puts the file's bytes into `b[off..off+n]` and leaves the rest of `b` alone |
| BufferedFile.ReadToEnd | pdfbox/src/main/java/org/apache/pdfbox/io/RandomAccessBufferedFile.java:180-210 | reading on with `read(b)` until -1 yields exactly the rest of the file, with no filler and no skipped byte at page boundaries |

## Left out

- Opening the file and `file.length()` (lines 75-91) are left out. The reader is built over the `RandomAccessFile` stand-in, whose `content` is the file. I/O errors and their `IOException`s are not modelled.
- `createView` (lines 262-265) is left out: `RandomAccessReadView` is not part of this model.
- The `LinkedHashMap`'s initial capacity, its 0.75 load factor and `serialVersionUID` only tune the hash table, so they are left out. Keys are longs modelled as unbounded integers.
- BufferedFile.RandomAccessBufferedFile.Seek: requires `0 <= newOffset <= Long.MAX_VALUE`. A negative offset would be rejected by the file's own `seek` as an I/O error.
- BufferedFile.RandomAccessBufferedFile.Rewind: requires the new position to be non-negative, for the same reason.
- Paging.PageOffset: its agreement with the mask of line 110 (`newOffset & pageOffsetMask` on a non-negative long) is taken as given, not proved. The model computes the page offset as `o - o % 4096`.
- BufferedFile.RandomAccessBufferedFile.ReadBytes: requires `0 <= off`, `0 <= len` and `off + len <= b.length`, the contract of `read(byte[], int, int)`. The source accepts `off + len > b.length` when the clamped count fits in `b`. It throws inside `arraycopy` (line 204) when `off < 0`, `len < 0` or `off + commonLen > b.length`. If the page-end seek at line 195 ran, the cursor and the cache have already moved. That failure is not modelled.
- BufferedFile.RandomAccessBufferedFile.Read: is stated only for an open reader. The same holds for ReadBytes, ReadArray, Peek, Rewind, IsEOF and Seek. The source does not guard against use after close.
- Java's `(int)` casts at lines 124 and 201 are not modelled. Their arguments there are below 4096, so they are exact.
- The file length is bounded by `Long.MAX_VALUE`.
- Concurrency is not modelled: the source is not thread-safe.
- A read that fails part-way is not modelled either.

## Findings

| source | as written | input that shows it | evidently intended | confidence | as-written member | corrected member |
|---|---|---|---|---|---|---|
| pdfbox/src/main/java/org/apache/pdfbox/io/RandomAccessBufferedFile.java:215 | `(int) Math.min(fileLength - fileOffset, Integer.MAX_VALUE)` goes negative once the position is past the end. Far past the end the cast wraps and reports bytes that cannot be read. | an empty file after `seek(1)`: -1; after `seek(4294967291)`: 5 | the number of bytes left, never negative: 0 at or past the end, capped at `Integer.MAX_VALUE` | not executed | Paging.AvailableAsWritten, Paging.AvailablePastEnd | Paging.Remaining, BufferedFile.RandomAccessBufferedFile.Available |
