/** Sparse memory kept in pages, against one flat array of the whole 32-bit address space. */
module PagedMemory {
  import opened Bits
  import opened Blocks
  import opened Options

  const SPACE: nat := 0x1_0000_0000

  // ----- flat memory

  /** How far address a lies behind addr, going round the address space. */
  function Behind(a: nat, addr: nat): nat
    requires a < SPACE && addr < SPACE
  {
    if a >= addr then a - addr else a + SPACE - addr
  }

  function Around(addr: nat, i: nat): (a: nat)
    requires addr < SPACE && i <= SPACE
    ensures a < SPACE && a == (addr + i) % SPACE
  {
    if addr + i < SPACE then addr + i else addr + i - SPACE
  }

  ghost function Overwritten(flat: seq<bv8>, addr: nat, data: seq<bv8>): (after: seq<bv8>)
    requires |flat| == SPACE && addr < SPACE
    ensures |after| == SPACE
  {
    seq(SPACE, a requires 0 <= a < SPACE => if Behind(a, addr) < |data| then data[Behind(a, addr)] else flat[a])
  }

  ghost function Window(flat: seq<bv8>, addr: nat, length: nat): (data: seq<bv8>)
    requires |flat| == SPACE && addr < SPACE && length <= SPACE
    ensures |data| == length
  {
    seq(length, i requires 0 <= i < length => flat[Around(addr, i)])
  }

  lemma BehindAround(addr: nat, i: nat)
    requires addr < SPACE && i < SPACE
    ensures Behind(Around(addr, i), addr) == i
  {
  }

  /** What was written is read back, all of it. */
  lemma ReadsWhatWasWritten(flat: seq<bv8>, addr: nat, data: seq<bv8>)
    requires |flat| == SPACE && addr < SPACE && |data| <= SPACE
    ensures Window(Overwritten(flat, addr, data), addr, |data|) == data
  {
    forall i | 0 <= i < |data|
      ensures Window(Overwritten(flat, addr, data), addr, |data|)[i] == data[i]
    {
      BehindAround(addr, i);
    }
  }

  /** A window that the write does not touch reads as before. */
  lemma ReadsAroundWrites(flat: seq<bv8>, addr: nat, data: seq<bv8>, other: nat, length: nat)
    requires |flat| == SPACE && addr < SPACE && other < SPACE && length <= SPACE
    requires forall i :: 0 <= i < length ==> Behind(Around(other, i), addr) >= |data|
    ensures Window(Overwritten(flat, addr, data), other, length) == Window(flat, other, length)
  {
  }

  // ----- pages

  type Pages = map<nat, seq<bv8>>

  ghost predicate PagesOk(pages: Pages, size: nat)
  {
    forall p :: p in pages ==> |pages[p]| == size
  }

  function At(pages: Pages, size: nat, a: nat): bv8
    requires size > 0 && PagesOk(pages, size)
  {
    if BlockNo(a, size) in pages then pages[BlockNo(a, size)][OffsetIn(a, size)] else 0
  }

  ghost function Flat(pages: Pages, size: nat): (flat: seq<bv8>)
    requires size > 0 && PagesOk(pages, size)
    ensures |flat| == SPACE
  {
    seq(SPACE, a requires 0 <= a < SPACE => At(pages, size, a))
  }

  function Zeros(n: nat): (z: seq<bv8>)
    ensures |z| == n
  {
    seq(n, _ => 0)
  }

  /** A page comes into being, filled with zeros, when it is first written. */
  function PageOf(pages: Pages, size: nat, p: nat): seq<bv8>
  {
    if p in pages then pages[p] else Zeros(size)
  }

  function Stored(page: seq<bv8>, offset: nat, data: seq<bv8>): seq<bv8>
    requires offset + |data| <= |page|
  {
    page[..offset] + data + page[offset + |data|..]
  }

  /** Storing into one page changes just the bytes of that stretch of addresses. */
  lemma StoringInPage(pages: Pages, size: nat, p: nat, offset: nat, data: seq<bv8>, a: nat)
    requires size > 0 && PagesOk(pages, size) && offset + |data| <= size
    ensures var after, start := pages[p := Stored(PageOf(pages, size, p), offset, data)], Base(p, size) + offset;
            && PagesOk(after, size)
            && At(after, size, a) == if start <= a < start + |data| then data[a - start] else At(pages, size, a)
  {
    hide Base, BlockNo, OffsetIn;
    var q := BlockNo(a, size);
    if q < p {
      BlocksAreApart(size, q, p);
    } else if p < q {
      BlocksAreApart(size, p, q);
    }
  }

  // ----- the last page

  ghost predicate IsPageSize(size: nat)
  {
    size > 0 && size < SPACE && exists k: nat :: k < 32 && size == Pow2(k)
  }

  lemma SpaceSplits(size: nat) returns (pages: nat)
    requires IsPageSize(size)
    ensures pages > 1 && SPACE == pages * size
  {
    var k: nat :| k < 32 && size == Pow2(k);
    Pow2Of32();
    Pow2Adds(32 - k, k);
    pages := Pow2(32 - k);
    Pow2Grows(0, 32 - k);
  }

  /** The end of a page in a 32-bit word. */
  function EndOfPage(p: nat, size: nat): nat
  {
    (p + 1) * size % SPACE
  }

  ghost predicate IsLastPage(p: nat, size: nat)
  {
    Base(p, size) + size == SPACE
  }

  lemma PageEnds(a: nat, size: nat)
    requires IsPageSize(size) && a < SPACE
    ensures var p := BlockNo(a, size);
            && Base(p, size) + size <= SPACE
            && EndOfPage(p, size) == if IsLastPage(p, size) then 0 else Base(p, size) + size
  {
    hide Base, BlockNo, Pow2;
    var n := SpaceSplits(size);
    var p := BlockNo(a, size);
    BaseIsProduct(n, size);
    BaseIsProduct(p + 1, size);
    NextBlock(size, p);
    BeforePage(p, n, size, a);
    if p + 1 < n {
      BlocksAreApart(size, p + 1, n);
    }
  }

  lemma BeforePage(p: nat, n: nat, size: nat, a: nat)
    requires Base(p, size) <= a < Base(n, size)
    ensures p < n
  {
    hide Base;
    if p > n {
      BlocksAreApart(size, n, p);
      assert false;
    }
  }

  ghost predicate TouchesLastPage(addr: nat, length: nat, size: nat)
    requires size > 0 && addr < SPACE && length <= SPACE
  {
    exists i :: 0 <= i < length && IsLastPage(BlockNo(Around(addr, i), size), size)
  }

  /** A length's low 32 bits, added to the place in the page, go beyond a 32-bit word. */
  predicate Overflows(addr: nat, length: nat, size: nat)
    requires size > 0
  {
    OffsetIn(addr, size) + length % SPACE >= SPACE
  }

  class Memory {
    const size: nat
    const log2Size: nat
    var pages: Pages

    ghost predicate Valid()
      reads this
    {
      IsPageSize(size) && PagesOk(pages, size)
    }

    ghost function Contents(): (flat: seq<bv8>)
      requires Valid()
      reads this
      ensures |flat| == SPACE
    {
      Flat(pages, size)
    }

    /** The page size has one bit; the constructor finds it. */
    constructor (blockSize: nat)
      requires IsPageSize(blockSize)
      ensures Valid() && size == blockSize && size == Pow2(log2Size)
      ensures forall a :: 0 <= a < SPACE ==> Contents()[a] == 0
    {
      size := blockSize;
      pages := map[];
      ghost var k: nat :| k < 32 && blockSize == Pow2(k);
      var log, found := 0, false;
      for n := 0 to 32
        invariant found <==> k < n
        invariant found ==> log == k
      {
        BitOfPower(k, n);
        if Bit(blockSize, n) == 1 {
          assert !found;
          log, found := n, true;
        }
      }
      log2Size := log;
    }

    /** False where the program's assertion fails: the data do not fit in the page. */
    method WriteBlock(p: nat, offset: nat, data: seq<bv8>) returns (ok: bool)
      requires Valid()
      modifies this
      ensures ok <==> offset + |data| <= size
      ensures Valid() && pages == if ok then old(pages)[p := Stored(PageOf(old(pages), size, p), offset, data)]
              else old(pages)
    {
      ok := offset + |data| <= size;
      if ok {
        pages := pages[p := Stored(PageOf(pages, size, p), offset, data)];
      }
    }

    /** One round of the loop for data that reach beyond a page: what is left of the page or of the
        data is written. */
    method WriteChunk(addr: nat, data: seq<bv8>, done: nat, current: nat, remain: nat, ghost before: Pages)
      returns (ok: bool, tx: nat)
      requires Valid() && PagesOk(before, size) && addr < SPACE && 0 < remain
      requires done + remain <= |data| && done + remain < SPACE && current == Around(addr, done)
      requires Flat(pages, size) == Overwritten(Flat(before, size), addr, data[..done])
      modifies this
      ensures Valid() && (ok <==> OffsetIn(current, size) + remain < SPACE) && (!ok ==> pages == old(pages))
      ensures ok ==> 0 < tx <= remain && (tx == remain || OffsetIn((current + tx) % SPACE, size) == 0)
      ensures ok ==> Flat(pages, size) == Overwritten(Flat(before, size), addr, data[..done + tx])
    {
      hide Base, BlockNo, OffsetIn, EndOfPage, Flat, Overwritten, Stored;
      var offset, page := OffsetIn(current, size), BlockNo(current, size);
      PageEnds(current, size);
      var limit := (offset + remain) % SPACE;
      if limit > size {
        limit := size;
      }
      tx := (limit - offset) % SPACE;
      BytesOfChunk(offset, remain, size, limit, tx);
      ok := WriteBlock(page, offset, data[done..done + tx]);
      if ok {
        if offset + tx == size {
          NextOffset(current, size, tx);
        }
        NextChunk(before, old(pages), pages, size, addr, data, done, current, tx);
      }
    }

    /** The loop for data that do not fit in the first page. */
    method WriteByChunks(addr: nat, data: seq<bv8>) returns (ok: bool)
      requires Valid() && addr < SPACE
      modifies this
      ensures ok <==> !Overflows(addr, |data|, size)
      ensures Valid()
      ensures Contents() == if ok then Overwritten(old(Contents()), addr, data[..|data| % SPACE]) else old(Contents())
    {
      hide Base, BlockNo, OffsetIn, EndOfPage, Flat, Overwritten, PagesOk, Around;
      ghost var before := pages;
      var remain: nat, done: nat, current: nat := |data| % SPACE, 0, addr;
      NothingYet(pages, size, addr, data);
      while remain > 0
        invariant Valid() && done + remain == |data| % SPACE && current == Around(addr, done)
        invariant done == 0 ==> current == addr && pages == before
        invariant done > 0 ==> !Overflows(addr, |data|, size) && (remain == 0 || OffsetIn(current, size) == 0)
        invariant Flat(pages, size) == Overwritten(Flat(before, size), addr, data[..done])
      {
        var tx;
        ok, tx := WriteChunk(addr, data, done, current, remain, before);
        if !ok {
          return;
        }
        AroundMore(addr, done, tx);
        done := done + tx;
        current := (current + tx) % SPACE;
        remain := remain - tx;
      }
      ok := true;
    }

    /** A length is cut to 32 bits when it does not fit in the first page, and one whose 32 bits go
        round the place in that page stops the program before anything is written. */
    method Write(addr: nat, data: seq<bv8>) returns (ok: bool)
      requires Valid() && addr < SPACE
      modifies this
      ensures ok <==> !Overflows(addr, |data|, size)
      ensures Valid()
      ensures Contents() == if ok then Overwritten(old(Contents()), addr, data[..|data| % SPACE]) else old(Contents())
    {
      hide Base, BlockNo, OffsetIn, EndOfPage, Flat, Overwritten, PagesOk, Around;
      var index := BlockNo(addr, size);
      PageEnds(addr, size);
      ghost var before := pages;
      if addr + |data| <= EndOfPage(index, size) {
        ok := WriteBlock(index, OffsetIn(addr, size), data);
        assert data == data[..|data| % SPACE];
        Chunk(before, pages, size, addr, data);
      } else {
        ok := WriteByChunks(addr, data);
      }
    }

    /** None where the program throws. */
    method ReadSingleBlock(p: nat, addr: nat, length: nat) returns (data: Option<seq<bv8>>)
      requires Valid() && addr < SPACE && p == BlockNo(addr, size)
      ensures data == if addr + length > EndOfPage(p, size) then None else Some(Window(Contents(), addr, length))
    {
      hide Base, BlockNo, OffsetIn, EndOfPage;
      PageEnds(addr, size);
      if addr + length > EndOfPage(p, size) {
        return None;
      }
      OnePageWindow(pages, size, addr, length);
      if p !in pages {
        return Some(Zeros(length));
      }
      data := Some(pages[p][OffsetIn(addr, size)..OffsetIn(addr, size) + length]);
    }

    /** One round of the loop for a range that reaches beyond a page. */
    method ReadChunk(addr: nat, got: seq<bv8>, current: nat, remain: nat) returns (block: Option<seq<bv8>>, tx: nat)
      requires Valid() && addr < SPACE && 0 < remain && |got| + remain < SPACE && current == Around(addr, |got|)
      requires !TouchesLastPage(addr, |got|, size) && got == Window(Contents(), addr, |got|)
      ensures 0 < tx <= remain
      ensures block.None? ==> TouchesLastPage(addr, |got| + remain, size)
      ensures block.Some? ==> !TouchesLastPage(addr, |got| + tx, size) && |block.value| == tx
                              && got + block.value == Window(Contents(), addr, |got| + tx)
    {
      hide Base, BlockNo, OffsetIn, EndOfPage, Flat, Window, TouchesLastPage, PagesOk;
      var offset, page := OffsetIn(current, size), BlockNo(current, size);
      PageEnds(current, size);
      var limit := (offset + remain) % SPACE;
      if limit > size {
        limit := size;
      }
      tx := (limit - offset) % SPACE;
      BytesOfChunk(offset, remain, size, limit, tx);
      if offset + remain < SPACE {
        TouchingMore(addr, |got|, tx, current, |got| + remain, size);
      } else {
        TooLongTouches(addr, |got|, current, |got| + remain, size);
      }
      block := ReadSingleBlock(page, current, tx);
      WindowGrows(Contents(), addr, |got|, current, tx);
    }

    /** Reads the low 32 bits of the length. */
    method Read(addr: nat, length: nat) returns (data: Option<seq<bv8>>)
      requires Valid() && addr < SPACE
      ensures data == if TouchesLastPage(addr, length % SPACE, size) then None
                      else Some(Window(Contents(), addr, length % SPACE))
    {
      hide Base, BlockNo, OffsetIn, EndOfPage, Flat, Window, TouchesLastPage, PagesOk, Around;
      var index := BlockNo(addr, size);
      PageEnds(addr, size);
      if addr + length <= EndOfPage(index, size) {
        InsideOnePage(addr, length, size);
        data := ReadSingleBlock(index, addr, length);
      } else {
        var got: seq<bv8> := [];
        var remain: nat, current: nat := length % SPACE, addr;
        NothingRead(Contents(), addr, size);
        while remain > 0
          invariant |got| + remain == length % SPACE && current == Around(addr, |got|)
          invariant !TouchesLastPage(addr, |got|, size) && got == Window(Contents(), addr, |got|)
        {
          var block, tx := ReadChunk(addr, got, current, remain);
          if block.None? {
            return None;
          }
          AroundMore(addr, |got|, tx);
          got := got + block.value;
          current := (current + tx) % SPACE;
          remain := remain - tx;
        }
        data := Some(got);
      }
    }
  }

  // ----- the steps of the loops

  /** What the 32-bit arithmetic of a loop round yields: the rest of the page or of the data, or all
      of the data when the sum wraps. */
  lemma BytesOfChunk(offset: nat, remain: nat, size: nat, limit: nat, tx: nat)
    requires offset < size < SPACE && 0 < remain < SPACE
    requires var sum := (offset + remain) % SPACE; limit == if sum > size then size else sum
    requires tx == (limit - offset) % SPACE
    ensures if offset + remain < SPACE then tx == (if offset + remain > size then size - offset else remain)
            else tx == remain
    ensures offset + remain >= SPACE ==> offset + tx > size
    ensures 0 < tx <= remain
  {
    if offset + remain >= SPACE {
      assert (offset + remain) % SPACE == offset + remain - SPACE;
      assert (remain - SPACE) % SPACE == remain;
    }
  }

  lemma NextOffset(current: nat, size: nat, tx: nat)
    requires IsPageSize(size) && current < SPACE && OffsetIn(current, size) + tx == size
    ensures OffsetIn((current + tx) % SPACE, size) == 0
  {
    hide Base, BlockNo, OffsetIn;
    var p := BlockNo(current, size);
    PageEnds(current, size);
    NextBlock(size, p);
    NextBlock(size, 0);
    if current + tx == SPACE {
      AtPlace(size, 0, 0);
    } else {
      AtPlace(size, p + 1, 0);
    }
  }

  /** A range that goes round to the page it starts in covers every page. */
  lemma TooLongTouches(addr: nat, done: nat, current: nat, length: nat, size: nat)
    requires IsPageSize(size) && addr < SPACE && done < length < SPACE && current == Around(addr, done)
    requires OffsetIn(current, size) + (length - done) >= SPACE
    ensures TouchesLastPage(addr, length, size) && current + (length - done) > EndOfPage(BlockNo(current, size), size)
  {
    hide Base, BlockNo, OffsetIn, EndOfPage;
    PageEnds(current, size);
    if IsLastPage(BlockNo(current, size), size) {
      assert IsLastPage(BlockNo(Around(addr, done), size), size);
    } else {
      var q := LastPage(size);
      BlocksAreApart(size, BlockNo(current, size), q);
      AtPlace(size, q, 0);
      AroundTwice(addr, done, SPACE - size - current);
      assert IsLastPage(BlockNo(Around(addr, done + (SPACE - size - current)), size), size);
    }
  }

  lemma AroundTwice(addr: nat, i: nat, j: nat)
    requires addr < SPACE && i + j <= SPACE && Around(addr, i) + j < SPACE
    ensures Around(addr, i + j) == Around(addr, i) + j
  {
  }

  lemma LastPage(size: nat) returns (q: nat)
    requires IsPageSize(size)
    ensures Base(q, size) == SPACE - size
    ensures forall a: nat :: a < SPACE ==> BlockNo(a, size) <= q
  {
    hide Base, BlockNo;
    var n := SpaceSplits(size);
    q := n - 1;
    BaseIsProduct(n, size);
    NextBlock(size, q);
    forall a: nat | a < SPACE
      ensures BlockNo(a, size) <= q
    {
      BeforePage(BlockNo(a, size), n, size, a);
    }
  }

  lemma AroundMore(addr: nat, i: nat, n: nat)
    requires addr < SPACE && i + n <= SPACE
    ensures Around(addr, i + n) == (Around(addr, i) + n) % SPACE
  {
  }

  lemma NothingYet(pages: Pages, size: nat, addr: nat, data: seq<bv8>)
    requires size > 0 && PagesOk(pages, size) && addr < SPACE
    ensures Flat(pages, size) == Overwritten(Flat(pages, size), addr, data[..0])
  {
    hide Flat;
  }

  lemma NothingRead(flat: seq<bv8>, addr: nat, size: nat)
    requires |flat| == SPACE && addr < SPACE && size > 0
    ensures Window(flat, addr, 0) == [] && !TouchesLastPage(addr, 0, size)
  {
  }

  lemma FlatChanges(before: Pages, after: Pages, size: nat, current: nat, data: seq<bv8>, a: nat)
    requires size > 0 && PagesOk(before, size) && OffsetIn(current, size) + |data| <= size
    requires after == before[BlockNo(current, size) := Stored(PageOf(before, size, BlockNo(current, size)),
                                                              OffsetIn(current, size), data)]
    requires PagesOk(after, size) && a < SPACE
    ensures Flat(after, size)[a] == if current <= a < current + |data| then data[a - current] else Flat(before, size)[a]
  {
    hide Base, BlockNo, OffsetIn, At, Stored;
    StoringInPage(before, size, BlockNo(current, size), OffsetIn(current, size), data, a);
  }

  /** One page's worth at once, without going round. */
  lemma Chunk(before: Pages, after: Pages, size: nat, addr: nat, data: seq<bv8>)
    requires size > 0 && PagesOk(before, size) && PagesOk(after, size)
    requires addr < SPACE && OffsetIn(addr, size) + |data| <= size && addr + |data| <= SPACE
    requires after == before[BlockNo(addr, size) := Stored(PageOf(before, size, BlockNo(addr, size)),
                                                           OffsetIn(addr, size), data)]
    ensures Flat(after, size) == Overwritten(Flat(before, size), addr, data)
  {
    hide Base, BlockNo, OffsetIn, Flat, Stored;
    forall a: nat | a < SPACE
      ensures Flat(after, size)[a] == Overwritten(Flat(before, size), addr, data)[a]
    {
      FlatChanges(before, after, size, addr, data, a);
    }
  }

  lemma NextChunk(before: Pages, now: Pages, after: Pages, size: nat, addr: nat, data: seq<bv8>, done: nat,
                  current: nat, tx: nat)
    requires size > 0 && PagesOk(before, size) && PagesOk(now, size) && PagesOk(after, size)
    requires addr < SPACE && done + tx <= |data| && done + tx < SPACE && current == Around(addr, done)
    requires OffsetIn(current, size) + tx <= size && current + tx <= SPACE
    requires after == now[BlockNo(current, size) :=
                            Stored(PageOf(now, size, BlockNo(current, size)), OffsetIn(current, size),
                                   data[done..done + tx])]
    requires Flat(now, size) == Overwritten(Flat(before, size), addr, data[..done])
    ensures Flat(after, size) == Overwritten(Flat(before, size), addr, data[..done + tx])
  {
    hide Base, BlockNo, OffsetIn, Flat, Stored;
    forall a: nat | a < SPACE
      ensures Flat(after, size)[a] == Overwritten(Flat(before, size), addr, data[..done + tx])[a]
    {
      FlatChanges(now, after, size, current, data[done..done + tx], a);
      OneStretchMore(addr, done, current, tx, a);
    }
  }

  lemma OneStretchMore(addr: nat, done: nat, current: nat, tx: nat, a: nat)
    requires addr < SPACE && a < SPACE && done + tx < SPACE && current == Around(addr, done) && current + tx <= SPACE
    ensures current <= a < current + tx <==> done <= Behind(a, addr) < done + tx
    ensures current <= a < current + tx ==> Behind(a, addr) == done + (a - current)
  {
  }

  lemma OnePageWindow(pages: Pages, size: nat, addr: nat, length: nat)
    requires size > 0 && PagesOk(pages, size) && addr < SPACE && OffsetIn(addr, size) + length <= size
             && addr + length <= SPACE
    ensures var p := BlockNo(addr, size);
            Window(Flat(pages, size), addr, length)
              == if p in pages then pages[p][OffsetIn(addr, size)..OffsetIn(addr, size) + length] else Zeros(length)
  {
    hide Base, BlockNo, OffsetIn;
    var p := BlockNo(addr, size);
    forall i | 0 <= i < length
      ensures BlockNo(addr + i, size) == p && OffsetIn(addr + i, size) == OffsetIn(addr, size) + i
              && Around(addr, i) == addr + i
    {
      AtPlace(size, p, OffsetIn(addr, size) + i);
    }
  }

  lemma InsideOnePage(addr: nat, length: nat, size: nat)
    requires IsPageSize(size) && addr < SPACE && addr + length <= EndOfPage(BlockNo(addr, size), size)
    ensures length <= SPACE && OffsetIn(addr, size) + length <= size && !TouchesLastPage(addr, length, size)
  {
    hide Base, BlockNo, OffsetIn, EndOfPage;
    PageEnds(addr, size);
    var p := BlockNo(addr, size);
    forall i | 0 <= i < length
      ensures !IsLastPage(BlockNo(Around(addr, i), size), size)
    {
      AtPlace(size, p, OffsetIn(addr, size) + i);
    }
  }

  /** The next block ends in the last page exactly when the program throws on it. */
  lemma TouchingMore(addr: nat, done: nat, tx: nat, current: nat, length: nat, size: nat)
    requires IsPageSize(size) && addr < SPACE && tx > 0 && done + tx <= length <= SPACE && current == Around(addr, done)
    requires OffsetIn(current, size) + tx <= size && !TouchesLastPage(addr, done, size)
    ensures current + tx > EndOfPage(BlockNo(current, size), size) ==> TouchesLastPage(addr, length, size)
    ensures current + tx <= EndOfPage(BlockNo(current, size), size) ==> !TouchesLastPage(addr, done + tx, size)
  {
    hide Base, BlockNo, OffsetIn, EndOfPage;
    PageEnds(current, size);
    var p := BlockNo(current, size);
    if current + tx > EndOfPage(p, size) {
      assert IsLastPage(BlockNo(Around(addr, done), size), size);
    } else {
      forall i | 0 <= i < done + tx
        ensures !IsLastPage(BlockNo(Around(addr, i), size), size)
      {
        if i >= done {
          AtPlace(size, p, OffsetIn(current, size) + (i - done));
        }
      }
    }
  }

  lemma WindowGrows(flat: seq<bv8>, addr: nat, done: nat, current: nat, tx: nat)
    requires |flat| == SPACE && addr < SPACE && done + tx <= SPACE && current == Around(addr, done)
    ensures Window(flat, addr, done + tx) == Window(flat, addr, done) + Window(flat, current, tx)
  {
  }

  /** Reading the last byte of the address space with 4 KB pages throws. */
  lemma LastByteCannotBeRead()
    ensures TouchesLastPage(SPACE - 1, 1, 0x1000)
  {
    hide BlockNo;
    AtPlace(0x1000, 0xf_ffff, 0xfff);
    BaseIsProduct(0xf_ffff, 0x1000);
    assert Around(SPACE - 1, 0) == Base(0xf_ffff, 0x1000) + 0xfff;
    assert IsLastPage(BlockNo(Around(SPACE - 1, 0), 0x1000), 0x1000);
  }
}
