/**
 * code/vm/MemoryManager.cc on code/filesys/openfile.cc: what the file of an address space keeps when a page is written
 * back to it through the file system of this repository rather than that of the host.
 */
module PageFiles {
  import opened Words
  import opened SynchDisks
  import opened FileHeaders
  import opened FileContents
  import opened Paging

  /** Page `q`, behind an executable header of `start` bytes, can be read in full and is `page`. */
  predicate HoldsPage(bytes: seq<byte>, start: nat, q: nat, page: Page) {
    start + (q + 1) * PAGE_SIZE <= |bytes| && bytes[start + q * PAGE_SIZE..start + (q + 1) * PAGE_SIZE] == page
  }

  /** All pages of the space are there. */
  ghost predicate HoldsPages(bytes: seq<byte>, start: nat, pages: seq<Page>) {
    forall q | 0 <= q < |pages| :: HoldsPage(bytes, start, q, pages[q])
  }

  /** Writing a page back updates just this page of the file exactly if it is the last one; else the file is cut off behind it. */
  lemma WriteBackKeepsPagesIff(d: Disk, h: Header, d': Disk, h': Header, f: int, start: nat, pages: seq<Page>, p: nat, page: Page)
    requires WellFormed(d, h, f) && HoldsPages(FileBytes(d, h), start, pages) && p < |pages|
    requires start + p * PAGE_SIZE <= h.limit && Stored(d, h, d', h', f, start + p * PAGE_SIZE, page)
    ensures HoldsPages(FileBytes(d', h'), start, pages[p := page]) <==> p == |pages| - 1
  {
    hide WellFormed, FileBytes, Image;
    var bytes, bytes' := FileBytes(d, h), FileBytes(d', h');
    var pages': seq<Page> := pages[p := page];
    assert |bytes'| == start + (p + 1) * PAGE_SIZE;
    if p == |pages| - 1 {
      forall q | 0 <= q < |pages|
        ensures HoldsPage(bytes', start, q, pages'[q])
      {
        if q < p {
          assert HoldsPage(bytes, start, q, pages[q]) && (q + 1) * PAGE_SIZE <= p * PAGE_SIZE;
          assert bytes'[start + q * PAGE_SIZE..start + (q + 1) * PAGE_SIZE] == bytes[start + q * PAGE_SIZE..start + (q + 1) * PAGE_SIZE];
        }
      }
    } else {
      assert !HoldsPage(bytes', start, p + 1, pages'[p + 1]);
    }
  }
}
