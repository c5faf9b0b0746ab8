/**
 * RandomAccessBufferedFile: random access to a read-only file through a
 * cursor over page-aligned 4096-byte pages kept in an LRU page cache.
 *
 * The cursor is `fileOffset` (the next byte to read), `curPageOffset` and
 * `curPage` (the resident page) and `offsetWithinPage`. Pages are byte
 * arrays; a page evicted from the cache is kept in `lastRemovedCachePage`
 * and refilled by the next page load instead of allocating a new one.
 */
module BufferedFile {
  import opened Paging
  import opened Recency
  import opened LruCache
  import opened FileHandle

  /**
   * `page` is a page buffer holding the bytes of `file` from `p` on, up to
   * the end of the page or of the file. Its bytes past the end of the file are filler:
   * zeros in a new buffer, stale bytes in a recycled one.
   */
  ghost predicate PageHolds(page: array<bv8>, p: int, file: seq<bv8>)
    reads page
  {
    && page.Length == PageSize
    && forall i :: 0 <= i < PageSize && 0 <= p + i < |file| ==> page[i] == file[p + i]
  }

  /** Every cached page holds the file's bytes at its offset. */
  ghost predicate PagesHold(pages: map<int, array<bv8>>, file: seq<bv8>)
    reads pages.Values
  {
    forall p :: p in pages ==> PageHolds(pages[p], p, file)
  }

  /** No two cache entries share a buffer. */
  ghost predicate Unshared(pages: map<int, array<bv8>>)
  {
    forall p, q :: p in pages && q in pages && p != q ==> pages[p] != pages[q]
  }

  /** No cache entry holds `buffer`. */
  ghost predicate HeldByNone(pages: map<int, array<bv8>>, buffer: array<bv8>)
  {
    buffer !in pages.Values
  }

  /** Caching a buffer no entry holds keeps the buffers unshared. */
  lemma AdmitUnshared(pages: map<int, array<bv8>>, p: int, buffer: array<bv8>)
    requires Unshared(pages) && HeldByNone(pages, buffer)
    ensures Unshared(pages[p := buffer])
  {
  }

  /** Once its entry is evicted, a buffer is held by no entry. */
  lemma EvictUnshared(pages: map<int, array<bv8>>, eldest: int)
    requires Unshared(pages) && eldest in pages
    ensures Unshared(pages - {eldest}) && HeldByNone(pages - {eldest}, pages[eldest])
  {
    var rest := pages - {eldest};
    forall q | q in rest ensures rest[q] != pages[eldest] {
      assert q in pages && q != eldest;
    }
  }

  /**
   * Admitting a page that holds the file's bytes, with or without evicting
   * the eldest entry, keeps every cached page right, no buffer shared, and
   * the evicted buffer out of the cache.
   */
  lemma AdmitPage(cached: map<int, array<bv8>>, order: seq<int>, p: int, page: array<bv8>,
                  entries: map<int, array<bv8>>, recycled: array?<bv8>, file: seq<bv8>, S: set<object>)
    requires PagesHold(cached, file) && PageHolds(page, p, file)
    requires Unshared(cached) && HeldByNone(cached, page)
    requires cached.Values <= S && page in S
    requires Aligned(p) && forall q :: q in cached ==> Aligned(q)
    requires || (entries == cached[p := page] && recycled == null)
             || (&& |order| > 0 && order[0] in cached && order[0] != p
                 && entries == cached[p := page] - {order[0]} && recycled == cached[order[0]])
    ensures PagesHold(entries, file) && Unshared(entries)
    ensures entries.Values <= S && forall q :: q in entries ==> Aligned(q)
    ensures recycled != null ==> recycled in S && recycled.Length == PageSize && HeldByNone(entries, recycled)
  {
    AdmitUnshared(cached, p, page);
    var admitted := cached[p := page];
    assert PagesHold(admitted, file);
    if recycled != null {
      EvictUnshared(admitted, order[0]);
    }
    assert forall q :: q in entries ==> q in admitted && entries[q] == admitted[q];
  }

  class RandomAccessBufferedFile {
    const pageCache: PageCache<array<bv8>>
    var lastRemovedCachePage: array?<bv8>

    var curPageOffset: int
    var curPage: array<bv8>
    var offsetWithinPage: int

    const raFile: RandomAccessFile
    const fileLength: int
    var fileOffset: int
    var isClosed: bool

    /** The bytes of the file. */
    ghost const file: seq<bv8>
    ghost var Repr: set<object>

    /**
     * The cache holds at most `maxCachedPages` pages, each under its aligned
     * offset and holding the file's bytes there; no buffer is cached twice,
     * and the buffer kept for recycling is not cached at all.
     */
    ghost predicate CacheInv()
      reads this`Repr, this`lastRemovedCachePage, this`isClosed, Repr - {this}
    {
      && this in Repr && pageCache in Repr && raFile in Repr
      && pageCache.Valid() && pageCache.capacity == MaxCachedPages
      && file == raFile.content && fileLength == |file| <= LongMax
      && raFile.closed == isClosed
      && (isClosed ==> pageCache.entries == map[])
      && pageCache.entries.Values <= Repr
      && (forall p :: p in pageCache.entries ==> Aligned(p))
      && PagesHold(pageCache.entries, file)
      && Unshared(pageCache.entries)
      && (lastRemovedCachePage != null ==>
            && lastRemovedCachePage in Repr
            && lastRemovedCachePage.Length == PageSize
            && HeldByNone(pageCache.entries, lastRemovedCachePage))
    }

    /**
     * The position is the resident page's offset plus the offset within it;
     * while open, the resident page is the cache's most recently used entry.
     */
    ghost predicate CursorInv()
      reads this`curPage, this`curPageOffset, this`offsetWithinPage, this`fileOffset, this`isClosed
      reads this`Repr, Repr - {this}
    {
      && curPage in Repr && pageCache in Repr
      && Aligned(curPageOffset)
      && 0 <= offsetWithinPage <= PageSize
      && fileOffset == curPageOffset + offsetWithinPage
      && PageHolds(curPage, curPageOffset, file)
      && (!isClosed ==>
            && curPageOffset in pageCache.entries
            && pageCache.entries[curPageOffset] == curPage
            && |pageCache.order| > 0
            && pageCache.order[|pageCache.order| - 1] == curPageOffset)
    }

    ghost predicate Valid()
      reads this, Repr
    {
      CacheInv() && CursorInv()
    }

    /** Opens the reader over an open file and seeks to 0. */
    constructor (raFile: RandomAccessFile)
      requires !raFile.closed && |raFile.content| <= LongMax
      modifies raFile
      ensures Valid() && !isClosed && fresh(Repr - {raFile})
      ensures this.raFile == raFile && file == raFile.content && fileLength == |file|
      ensures fileOffset == 0 && curPageOffset == 0 && offsetWithinPage == 0
      ensures pageCache.order == [0] && pageCache.entries.Keys == {0} && lastRemovedCachePage == null
    {
      this.raFile := raFile;
      file := raFile.content;
      fileLength := |raFile.content|;
      pageCache := new PageCache(MaxCachedPages);
      lastRemovedCachePage := null;
      curPageOffset := NoPage;
      curPage := new bv8[PageSize];
      offsetWithinPage := 0;
      fileOffset := 0;
      isClosed := false;
      new;
      Repr := {this, pageCache, raFile, curPage};
      assert fresh(Repr - {raFile});
      Seek(0);
    }

    /** `getPosition`: the offset of the next byte to read. */
    function GetPosition(): (pos: int)
      reads this, Repr
      requires Valid()
      ensures pos >= 0 && pos == curPageOffset + offsetWithinPage
    {
      fileOffset
    }

    /** `length`: the length of the file. */
    function Length(): (n: int)
      reads this, Repr
      requires Valid()
      ensures n == |file|
    {
      fileLength
    }

    /** `isClosed`: true once `close` has released the file and emptied the cache. */
    function IsClosed(): (closed: bool)
      reads this, Repr
      requires Valid()
      ensures closed == raFile.closed
      ensures closed ==> pageCache.entries == map[]
    {
      isClosed
    }

    /** `available`: the bytes left to read, capped at Integer.MAX_VALUE (see Remaining). */
    function Available(): (n: int)
      reads this, Repr
      requires Valid()
      ensures 0 <= n <= IntMax
      ensures n == 0 <==> fileOffset >= fileLength
      ensures fileOffset <= fileLength && fileLength - fileOffset <= IntMax ==> n == fileLength - fileOffset
      ensures fileLength - fileOffset > IntMax ==> n == IntMax
    {
      Remaining(fileLength, fileOffset)
    }

    /**
     * `seek`: positions the cursor at `newOffset`. Within the resident page
     * only the cursor moves; moving to another page fetches it (FetchPage)
     * and makes it resident.
     */
    method Seek(newOffset: int)
      requires CacheInv() && !isClosed && (curPageOffset == NoPage || CursorInv())
      requires 0 <= newOffset <= LongMax
      modifies Repr
      ensures Valid() && !isClosed && fresh(Repr - old(Repr))
      ensures fileOffset == newOffset
      ensures curPageOffset == PageOffset(newOffset)
      ensures offsetWithinPage == newOffset - curPageOffset < PageSize
      ensures curPage != lastRemovedCachePage
      ensures curPageOffset == old(curPageOffset) ==>
        && curPage == old(curPage) && lastRemovedCachePage == old(lastRemovedCachePage)
        && pageCache.order == old(pageCache.order) && pageCache.entries == old(pageCache.entries)
      ensures curPageOffset != old(curPageOffset) ==> Fetched(curPageOffset, curPage)
    {
      var newPageOffset := PageOffset(newOffset);
      if newPageOffset != curPageOffset {
        MakeResident(newPageOffset);
      }
      offsetWithinPage := newOffset - curPageOffset;
      fileOffset := newOffset;
    }

    /**
     * What fetching the page at `p` into `page` does to the cache. On a hit
     * `page` is the cached page and only its key is touched. On a miss
     * `page` is the recycled buffer, or a new one when there is none, and is
     * put under `p`: below the bound it is added as the most recently used
     * entry; at the bound the least recently used entry is evicted and its
     * buffer becomes the recycled one.
     */
    twostate predicate Fetched(p: int, new page: array<bv8>)
      reads this`lastRemovedCachePage, pageCache
    {
      && p in pageCache.entries && pageCache.entries[p] == page
      && (p in old(pageCache.entries) ==>
            && page == old(pageCache.entries)[p]
            && pageCache.order == Touch(old(pageCache.order), p)
            && pageCache.entries == old(pageCache.entries)
            && lastRemovedCachePage == old(lastRemovedCachePage))
      && (p !in old(pageCache.entries) ==>
            && (old(lastRemovedCachePage) != null ==> page == old(lastRemovedCachePage))
            && (old(lastRemovedCachePage) == null ==> fresh(page))
            && (|old(pageCache.order)| < MaxCachedPages ==>
                  && pageCache.order == old(pageCache.order) + [p]
                  && pageCache.entries == old(pageCache.entries)[p := page]
                  && lastRemovedCachePage == null)
            && (|old(pageCache.order)| == MaxCachedPages ==>
                  var eldest := old(pageCache.order)[0];
                  && pageCache.order == old(pageCache.order)[1..] + [p]
                  && pageCache.entries == old(pageCache.entries)[p := page] - {eldest}
                  && eldest in old(pageCache.entries)
                  && lastRemovedCachePage == old(pageCache.entries)[eldest]))
    }

    /** The page change of `seek`: the page at `p` is fetched and becomes the resident page. */
    method MakeResident(p: int)
      requires CacheInv() && !isClosed && Aligned(p)
      modifies Repr
      ensures CacheInv() && !isClosed && fresh(Repr - old(Repr))
      ensures curPageOffset == p && curPage in Repr && PageHolds(curPage, p, file)
      ensures |pageCache.order| > 0 && pageCache.order[|pageCache.order| - 1] == p
      ensures curPage != lastRemovedCachePage
      ensures fileOffset == old(fileOffset) && offsetWithinPage == old(offsetWithinPage)
      ensures Fetched(p, curPage)
    {
      var newPage := FetchPage(p);
      assert PageHolds(newPage, p, file);
      curPageOffset := p;
      curPage := newPage;
    }

    /**
     * The page lookup of `seek`: a cached page is taken from the cache and
     * becomes its most recently used entry; on a miss the page is read from
     * the file into the recycled buffer (or a new one) and cached, which may
     * evict the least recently used page.
     */
    method FetchPage(p: int) returns (page: array<bv8>)
      requires CacheInv() && !isClosed && Aligned(p)
      modifies Repr
      ensures CacheInv() && !isClosed && fresh(Repr - old(Repr))
      ensures curPage == old(curPage) && curPageOffset == old(curPageOffset)
      ensures offsetWithinPage == old(offsetWithinPage) && fileOffset == old(fileOffset)
      ensures page in Repr && |pageCache.order| > 0 && pageCache.order[|pageCache.order| - 1] == p
      ensures Fetched(p, page)
    {
      var hit := pageCache.Get(p);
      if hit.Some? {
        page := hit.value;
      } else {
        page := LoadPage(p);
      }
    }

    /**
     * The miss path of `seek`: reads the page at `p` from the file and puts
     * it in the cache, keeping the buffer of an evicted page for recycling.
     */
    method LoadPage(p: int) returns (page: array<bv8>)
      requires CacheInv() && !isClosed && Aligned(p) && p !in pageCache.entries
      modifies Repr
      ensures CacheInv() && !isClosed && Repr == old(Repr) + {page}
      ensures curPage == old(curPage) && curPageOffset == old(curPageOffset)
      ensures offsetWithinPage == old(offsetWithinPage) && fileOffset == old(fileOffset)
      ensures p in pageCache.entries && pageCache.entries[p] == page
      ensures |pageCache.order| > 0 && pageCache.order[|pageCache.order| - 1] == p
      ensures old(lastRemovedCachePage) != null ==> page == old(lastRemovedCachePage)
      ensures old(lastRemovedCachePage) == null ==> fresh(page)
      ensures |old(pageCache.order)| < MaxCachedPages ==>
        && pageCache.order == old(pageCache.order) + [p]
        && pageCache.entries == old(pageCache.entries)[p := page]
        && lastRemovedCachePage == null
      ensures |old(pageCache.order)| == MaxCachedPages ==>
        var eldest := old(pageCache.order)[0];
        && pageCache.order == old(pageCache.order)[1..] + [p]
        && pageCache.entries == old(pageCache.entries)[p := page] - {eldest}
        && lastRemovedCachePage == old(pageCache.entries)[eldest]
    {
      raFile.Seek(p);
      page := ReadPage();
      CachePage(p, page);
    }

    /** Caches a freshly read page as the most recently used one. */
    method CachePage(p: int, page: array<bv8>)
      requires CacheInv() && !isClosed && Aligned(p) && p !in pageCache.entries
      requires lastRemovedCachePage == null
      requires PageHolds(page, p, file) && HeldByNone(pageCache.entries, page)
      modifies this`Repr, this`lastRemovedCachePage, pageCache
      ensures CacheInv() && Repr == old(Repr) + {page}
      ensures p in pageCache.entries && pageCache.entries[p] == page
      ensures |pageCache.order| > 0 && pageCache.order[|pageCache.order| - 1] == p
      ensures |old(pageCache.order)| < MaxCachedPages ==>
        && pageCache.order == old(pageCache.order) + [p]
        && pageCache.entries == old(pageCache.entries)[p := page]
        && lastRemovedCachePage == null
      ensures |old(pageCache.order)| == MaxCachedPages ==>
        var eldest := old(pageCache.order)[0];
        && pageCache.order == old(pageCache.order)[1..] + [p]
        && pageCache.entries == old(pageCache.entries)[p := page] - {eldest}
        && lastRemovedCachePage == old(pageCache.entries)[eldest]
    {
      ghost var cached, order := pageCache.entries, pageCache.order;
      var evicted := pageCache.Put(p, page);
      if evicted.Some? {
        lastRemovedCachePage := evicted.value;
      }
      Repr := Repr + {page};
      AdmitPage(cached, order, p, page, pageCache.entries, lastRemovedCachePage, file, Repr);
    }

    /**
     * `readPage`: fills the recycled buffer, or a new one, with the page at
     * the file pointer, reading until the page is full or the file ends.
     */
    method ReadPage() returns (page: array<bv8>)
      requires !raFile.closed && file == raFile.content
      requires lastRemovedCachePage != null ==> lastRemovedCachePage.Length == PageSize
      modifies this`lastRemovedCachePage, raFile, lastRemovedCachePage
      ensures lastRemovedCachePage == null && !raFile.closed
      ensures old(lastRemovedCachePage) != null ==> page == old(lastRemovedCachePage)
      ensures old(lastRemovedCachePage) == null ==> fresh(page)
      ensures PageHolds(page, old(raFile.pointer), file)
    {
      if lastRemovedCachePage != null {
        page := lastRemovedCachePage;
        lastRemovedCachePage := null;
      } else {
        page := new bv8[PageSize];
      }
      ghost var start := raFile.pointer;
      var readBytes := 0;
      while readBytes < PageSize
        invariant 0 <= readBytes <= PageSize
        invariant raFile.pointer == start + readBytes && !raFile.closed
        invariant lastRemovedCachePage == null
        invariant readBytes == 0 || start + readBytes <= |file|
        invariant forall i :: 0 <= i < readBytes ==> page[i] == file[start + i]
        decreases PageSize - readBytes
      {
        var curBytesRead := raFile.Read(page, readBytes, PageSize - readBytes);
        if curBytesRead < 0 {
          break;
        }
        readBytes := readBytes + curBytesRead;
      }
    }

    /**
     * The page check of `read` and `read(b, off, len)`: a cursor at the end
     * of its page seeks to its own position, which makes the next page
     * resident; otherwise nothing changes.
     */
    method SeekAtPageEnd()
      requires Valid() && !isClosed && fileOffset < fileLength
      modifies Repr
      ensures Valid() && !isClosed && fresh(Repr - old(Repr))
      ensures fileOffset == old(fileOffset) && offsetWithinPage < PageSize
      ensures curPageOffset == PageOffset(fileOffset)
      ensures old(offsetWithinPage) < PageSize ==> unchanged(this, pageCache) && Repr == old(Repr)
      ensures old(offsetWithinPage) == PageSize ==> Fetched(curPageOffset, curPage)
    {
      if offsetWithinPage == PageSize {
        NextPageAligned(curPageOffset);
        Seek(fileOffset);
      } else {
        PageOffsetUnique(fileOffset, curPageOffset);
      }
    }

    /**
     * `read()`: the byte at the position as a value in 0..255, moving on by
     * one, or -1 at or past the end of the file, changing nothing. A cursor
     * at the end of its page first seeks to load the next page.
     */
    method Read() returns (r: int)
      requires Valid() && !isClosed
      modifies Repr
      ensures Valid() && !isClosed && fresh(Repr - old(Repr))
      ensures r == -1 <==> old(fileOffset) >= fileLength
      ensures r == -1 ==> unchanged(this, pageCache) && Repr == old(Repr)
      ensures r != -1 ==>
        && 0 <= r < 256
        && r == file[old(fileOffset)] as int
        && fileOffset == old(fileOffset) + 1
        && curPageOffset == PageOffset(old(fileOffset))
      ensures r != -1 && old(offsetWithinPage) < PageSize ==>
        curPage == old(curPage) && unchanged(pageCache) && lastRemovedCachePage == old(lastRemovedCachePage)
      ensures r != -1 && old(offsetWithinPage) == PageSize ==> Fetched(curPageOffset, curPage)
    {
      if fileOffset >= fileLength {
        return -1;
      }
      SeekAtPageEnd();
      fileOffset := fileOffset + 1;
      r := curPage[offsetWithinPage] as int;
      offsetWithinPage := offsetWithinPage + 1;
    }

    /**
     * `read(b, off, len)`: -1 at or past the end of the file; otherwise
     * copies the next `n` bytes of the file into `b[off..off + n]`, where `n`
     * is the least of the room left in the page, `len` and the bytes left in
     * the file, and moves on by `n`.
     */
    method ReadBytes(b: array<bv8>, off: int, len: int) returns (n: int)
      requires Valid() && !isClosed && b !in Repr
      requires 0 <= off && 0 <= len && off + len <= b.Length
      modifies Repr, b
      ensures Valid() && !isClosed && fresh(Repr - old(Repr))
      ensures n == -1 <==> old(fileOffset) >= fileLength
      ensures n == -1 ==> unchanged(this, pageCache, b) && Repr == old(Repr)
      ensures n != -1 ==>
        && n == Min(Min(PageSize - old(fileOffset) % PageSize, len), fileLength - old(fileOffset))
        && b[off..off + n] == file[old(fileOffset)..old(fileOffset) + n]
        && b[..off] == old(b[..off]) && b[off + n..] == old(b[off + n..])
        && fileOffset == old(fileOffset) + n
        && curPageOffset == PageOffset(old(fileOffset))
        && (n > 0 ==> PageOffset(old(fileOffset) + n - 1) == curPageOffset)
      ensures n != -1 && old(offsetWithinPage) < PageSize ==>
        curPage == old(curPage) && unchanged(pageCache) && lastRemovedCachePage == old(lastRemovedCachePage)
      ensures n != -1 && old(offsetWithinPage) == PageSize ==> Fetched(curPageOffset, curPage)
    {
      if fileOffset >= fileLength {
        return -1;
      }
      SeekAtPageEnd();
      n := ReadInPage(b, off, len);
    }

    /** The copy of `read(b, off, len)` once the cursor is inside its page and before the end of the file. */
    method ReadInPage(b: array<bv8>, off: int, len: int) returns (n: int)
      requires Valid() && !isClosed && b !in Repr
      requires 0 <= off && 0 <= len && off + len <= b.Length
      requires offsetWithinPage < PageSize && fileOffset < fileLength
      modifies this`offsetWithinPage, this`fileOffset, b
      ensures Valid()
      ensures n == Min(Min(PageSize - old(fileOffset) % PageSize, len), fileLength - old(fileOffset))
      ensures b[off..off + n] == file[old(fileOffset)..old(fileOffset) + n]
      ensures b[..off] == old(b[..off]) && b[off + n..] == old(b[off + n..])
      ensures fileOffset == old(fileOffset) + n && curPageOffset == PageOffset(old(fileOffset))
      ensures n > 0 ==> PageOffset(old(fileOffset) + n - 1) == curPageOffset
    {
      PageOffsetUnique(fileOffset, curPageOffset);
      assert fileOffset % PageSize == offsetWithinPage;
      var commonLen := CommonLen(offsetWithinPage, len, fileLength - fileOffset);
      if 0 < commonLen {
        ChunkStaysInPage(fileOffset, commonLen);
      }
      CopyFromPage(curPage, curPageOffset, offsetWithinPage, b, off, commonLen, file);
      offsetWithinPage := offsetWithinPage + commonLen;
      fileOffset := fileOffset + commonLen;
      n := commonLen;
    }

    /** `read(b)`: `read(b, 0, b.length)`. */
    method ReadArray(b: array<bv8>) returns (n: int)
      requires Valid() && !isClosed && b !in Repr
      modifies Repr, b
      ensures Valid() && !isClosed && fresh(Repr - old(Repr))
      ensures n == -1 <==> old(fileOffset) >= fileLength
      ensures n == -1 ==> unchanged(this, pageCache, b) && Repr == old(Repr)
      ensures n != -1 ==>
        && n == Min(Min(PageSize - old(fileOffset) % PageSize, b.Length), fileLength - old(fileOffset))
        && b[..n] == file[old(fileOffset)..old(fileOffset) + n]
        && b[n..] == old(b[n..])
        && fileOffset == old(fileOffset) + n
        && curPageOffset == PageOffset(old(fileOffset))
        && (n > 0 ==> PageOffset(old(fileOffset) + n - 1) == curPageOffset)
      ensures n != -1 && old(offsetWithinPage) < PageSize ==>
        curPage == old(curPage) && unchanged(pageCache) && lastRemovedCachePage == old(lastRemovedCachePage)
      ensures n != -1 && old(offsetWithinPage) == PageSize ==> Fetched(curPageOffset, curPage)
    {
      n := ReadBytes(b, 0, b.Length);
    }

    /** `rewind(bytes)`: seeks `bytes` back from the position. */
    method Rewind(bytes: int)
      requires Valid() && !isClosed && 0 <= fileOffset - bytes <= LongMax
      modifies Repr
      ensures Valid() && !isClosed && fresh(Repr - old(Repr))
      ensures fileOffset == old(fileOffset) - bytes
      ensures curPageOffset == PageOffset(fileOffset)
      ensures curPageOffset == old(curPageOffset) ==>
        && curPage == old(curPage) && lastRemovedCachePage == old(lastRemovedCachePage)
        && pageCache.order == old(pageCache.order) && pageCache.entries == old(pageCache.entries)
      ensures curPageOffset != old(curPageOffset) ==> Fetched(curPageOffset, curPage)
    {
      Seek(GetPosition() - bytes);
    }

    /**
     * `peek`: what `read()` returns, leaving the position where it was. The
     * `rewind(1)` stays in the page `read()` left resident, so the cache
     * changes only as that `read()` changes it.
     */
    method Peek() returns (r: int)
      requires Valid() && !isClosed
      modifies Repr
      ensures Valid() && !isClosed && fresh(Repr - old(Repr))
      ensures fileOffset == old(fileOffset)
      ensures r == if old(fileOffset) >= fileLength then -1 else file[old(fileOffset)] as int
      ensures r == -1 || old(offsetWithinPage) < PageSize ==>
        && curPage == old(curPage) && lastRemovedCachePage == old(lastRemovedCachePage)
        && pageCache.order == old(pageCache.order) && pageCache.entries == old(pageCache.entries)
      ensures r != -1 ==> curPageOffset == PageOffset(fileOffset)
      ensures r != -1 && old(offsetWithinPage) == PageSize ==> Fetched(curPageOffset, curPage)
    {
      r := Read();
      if r != -1 {
        Rewind(1);
      }
    }

    /** `isEOF`: whether the position is at or past the end of the file. */
    method IsEOF() returns (eof: bool)
      requires Valid() && !isClosed
      modifies Repr
      ensures Valid() && !isClosed && fresh(Repr - old(Repr))
      ensures fileOffset == old(fileOffset)
      ensures eof == (GetPosition() >= Length())
      ensures eof || old(offsetWithinPage) < PageSize ==>
        && curPage == old(curPage) && lastRemovedCachePage == old(lastRemovedCachePage)
        && pageCache.order == old(pageCache.order) && pageCache.entries == old(pageCache.entries)
      ensures !eof ==> curPageOffset == PageOffset(fileOffset)
      ensures !eof && old(offsetWithinPage) == PageSize ==> Fetched(curPageOffset, curPage)
    {
      var r := Peek();
      eof := r == -1;
    }

    /** `close`: releases the file and empties the cache; closing twice is harmless. */
    method Close()
      requires Valid()
      modifies this, raFile, pageCache
      ensures Valid() && isClosed && Repr == old(Repr)
      ensures pageCache.entries == map[] && pageCache.order == []
      ensures pageCache.history == old(pageCache.history)
      ensures fileOffset == old(fileOffset) && curPageOffset == old(curPageOffset)
      ensures offsetWithinPage == old(offsetWithinPage) && curPage == old(curPage)
      ensures lastRemovedCachePage == old(lastRemovedCachePage)
    {
      raFile.Close();
      pageCache.Clear();
      isClosed := true;
    }
  }

  /**
   * The `System.arraycopy` of `read(b, off, len)`: copies `n` bytes of the
   * page at `p`, from `from` on, into `b[off..off + n]`; they are the file's
   * bytes there.
   */
  method CopyFromPage(page: array<bv8>, p: int, from: int, b: array<bv8>, off: int, n: int, ghost file: seq<bv8>)
    requires page != b && PageHolds(page, p, file)
    requires 0 <= p && 0 <= from && 0 <= n && from + n <= PageSize && p + from + n <= |file|
    requires 0 <= off && off + n <= b.Length
    modifies b
    ensures b[off..off + n] == file[p + from..p + from + n]
    ensures b[..off] == old(b[..off]) && b[off + n..] == old(b[off + n..])
  {
    forall i | 0 <= i < n {
      b[off + i] := page[from + i];
    }
  }

  /**
   * Reading on with `read(b)` until it returns -1 yields exactly the rest of
   * the file, for any non-empty `b`: no filler byte is ever returned and
   * no byte is skipped at a page boundary.
   */
  method ReadToEnd(reader: RandomAccessBufferedFile, b: array<bv8>) returns (data: seq<bv8>)
    requires reader.Valid() && !reader.isClosed && b !in reader.Repr && b.Length > 0
    requires reader.fileOffset <= reader.fileLength
    modifies reader.Repr, b
    ensures reader.Valid() && reader.fileOffset == reader.fileLength
    ensures data == reader.file[old(reader.fileOffset)..]
  {
    data := [];
    ghost var start := reader.fileOffset;
    while true
      invariant reader.Valid() && !reader.isClosed
      invariant fresh(reader.Repr - old(reader.Repr)) && b !in reader.Repr
      invariant start <= reader.fileOffset <= reader.fileLength
      invariant data == reader.file[start..reader.fileOffset]
      decreases reader.fileLength - reader.fileOffset
    {
      ghost var pos := reader.fileOffset;
      var n := reader.ReadArray(b);
      if n == -1 {
        break;
      }
      assert reader.file[start..pos + n] == reader.file[start..pos] + b[..n];
      data := data + b[..n];
    }
  }
}
