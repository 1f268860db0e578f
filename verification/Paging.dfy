/** Page-bounded chunks of a byte range, and what writing them does to a memory. */
module Paging {
  import opened Geometry

  type Byte = bv8

  datatype Chunk = Chunk(addr: nat, len: nat)

  /** The chunks of the range of n bytes at addr, cut at every multiple of the page size. */
  function Plan(page: nat, addr: nat, n: nat): seq<Chunk>
    requires page > 0
    decreases n
  {
    if n == 0 then []
    else
      var len := Min(n, page - addr % page);
      [Chunk(addr, len)] + Plan(page, addr + len, n - len)
  }

  /** cs covers the range exactly once, in order, by non-empty chunks none of which crosses
      a page boundary. */
  ghost predicate Splits(page: nat, cs: seq<Chunk>, addr: nat, n: nat)
    requires page > 0
    decreases |cs|
  {
    if cs == [] then n == 0
    else
      && cs[0].addr == addr && 1 <= cs[0].len <= n
      && addr % page + cs[0].len <= page
      && Splits(page, cs[1..], addr + cs[0].len, n - cs[0].len)
  }

  /** How many pages a non-empty range touches. */
  function PagesTouched(page: nat, addr: nat, n: nat): int
    requires page > 0 && n > 0
  {
    (addr + n - 1) / page - addr / page + 1
  }

  lemma {:induction false} PlanSplits(page: nat, addr: nat, n: nat)
    requires page > 0
    ensures Splits(page, Plan(page, addr, n), addr, n)
    decreases n
  {
    if n > 0 {
      var len := Min(n, page - addr % page);
      PlanSplits(page, addr + len, n - len);
      assert Plan(page, addr, n)[1..] == Plan(page, addr + len, n - len);
    }
  }

  lemma PlanHead(page: nat, addr: nat, n: nat)
    requires page > 0 && n > 0
    ensures var len := Min(n, page - addr % page);
      Plan(page, addr, n) == [Chunk(addr, len)] + Plan(page, addr + len, n - len)
  {
  }

  /** The bytes in so many whole pages and a rest. */
  function PagesAndRest(page: nat, pages: nat, single: nat): nat {
    if pages == 0 then single else page + PagesAndRest(page, pages - 1, single)
  }

  lemma {:induction false} PagesAndRestIsProduct(page: nat, pages: nat, single: nat)
    ensures PagesAndRest(page, pages, single) == pages * page + single
  {
    if pages > 0 {
      PagesAndRestIsProduct(page, pages - 1, single);
      assert pages * page == (pages - 1) * page + page;
    }
  }

  /** Quotient and remainder by the page size count whole pages and the rest. */
  lemma DivideByPage(page: nat, n: nat)
    requires page > 0
    ensures PagesAndRest(page, n / page, n % page) == n && n % page < page
    ensures n / page == 0 <==> n < page
    ensures n / page <= n
  {
    PagesAndRestIsProduct(page, n / page, n % page);
    if n < page {
      QuotientIsUnique(n, page, 0, n);
    }
    MulMono(1, page, n / page);
  }

  lemma NextBoundary(page: nat, addr: nat)
    requires page > 0 && addr % page == 0
    ensures (addr + page) % page == 0
  {
    PageOf(page, addr, page);
  }

  lemma PageOf(page: nat, addr: nat, len: nat)
    requires page > 0
    ensures addr % page + len < page ==> (addr + len) / page == addr / page && (addr + len) % page == addr % page + len
    ensures addr % page + len == page ==> (addr + len) / page == addr / page + 1 && (addr + len) % page == 0
  {
    var q, r := addr / page, addr % page;
    assert addr == q * page + r;
    if r + len < page {
      QuotientIsUnique(addr + len, page, q, r + len);
      assert addr + len == q * page + (addr + len) % page;
    } else if r + len == page {
      assert (q + 1) * page == q * page + page;
      QuotientIsUnique(addr + len, page, q + 1, 0);
      assert addr + len == (q + 1) * page + (addr + len) % page;
    }
  }

  /** The plan has exactly one chunk for each page it touches. */
  lemma {:induction false} PlanCount(page: nat, addr: nat, n: nat)
    requires page > 0 && n > 0
    ensures |Plan(page, addr, n)| == PagesTouched(page, addr, n)
    decreases n
  {
    var len := Min(n, page - addr % page);
    if len < n {
      PageOf(page, addr, len);
      PlanCount(page, addr + len, n - len);
    } else {
      PageOf(page, addr, n - 1);
    }
  }

  /** No way of splitting the range needs fewer chunks than the pages it touches. */
  lemma {:induction false} SplitNeedsPages(page: nat, cs: seq<Chunk>, addr: nat, n: nat)
    requires page > 0 && n > 0 && Splits(page, cs, addr, n)
    ensures |cs| >= PagesTouched(page, addr, n)
    decreases |cs|
  {
    var len := cs[0].len;
    PageOf(page, addr, len);
    if len < n {
      SplitNeedsPages(page, cs[1..], addr + len, n - len);
    } else {
      PageOf(page, addr, n - 1);
    }
  }

  /** The plan is the one and only split with the fewest chunks. */
  lemma {:induction false} PlanIsTheMinimum(page: nat, cs: seq<Chunk>, addr: nat, n: nat)
    requires page > 0 && Splits(page, cs, addr, n)
    ensures |cs| >= |Plan(page, addr, n)|
    ensures |cs| == |Plan(page, addr, n)| ==> cs == Plan(page, addr, n)
    decreases |cs|
  {
    if n > 0 {
      SplitNeedsPages(page, cs, addr, n);
      PlanCount(page, addr, n);
      if |cs| == |Plan(page, addr, n)| {
        var len := Min(n, page - addr % page);
        PageOf(page, addr, cs[0].len);
        if cs[0].len < len {
          SplitNeedsPages(page, cs[1..], addr + cs[0].len, n - cs[0].len);
        } else {
          PlanIsTheMinimum(page, cs[1..], addr + len, n - len);
          assert cs == [cs[0]] + cs[1..];
        }
      }
    }
  }

  // ---- memories ----

  /** How a memory cell takes up a written byte. */
  type Cell = (Byte, Byte) -> Byte

  /** The next address of a burst: it wraps to the start of its page. */
  function NextInPage(page: nat, addr: nat): nat
    requires page > 0
  {
    if addr % page == page - 1 then addr + 1 - page else addr + 1
  }

  /** What one burst of bytes does to a paged memory. */
  function Burst(m: seq<Byte>, page: nat, addr: nat, data: seq<Byte>, cell: Cell): (r: seq<Byte>)
    requires page > 0 && |m| % page == 0 && (data != [] ==> addr < |m|)
    ensures |r| == |m|
    decreases |data|
  {
    if data == [] then m
    else
      WrapInside(|m|, page, addr);
      Burst(m[addr := cell(m[addr], data[0])], page, NextInPage(page, addr), data[1..], cell)
  }

  lemma WrapInside(size: nat, page: nat, addr: nat)
    requires page > 0 && size % page == 0 && addr < size
    ensures NextInPage(page, addr) < size
  {
    var q, r, s := addr / page, addr % page, size / page;
    assert addr == q * page + r && size == s * page;
    if s <= q {
      MulMono(s, q, page);
    } else {
      MulMono(q + 1, s, page);
      assert (q + 1) * page == q * page + page;
    }
  }

  /** The same bytes written to a memory without pages. */
  function Flat(m: seq<Byte>, addr: nat, data: seq<Byte>, cell: Cell): (r: seq<Byte>)
    requires addr + |data| <= |m|
    ensures |r| == |m|
  {
    seq(|m|, i requires 0 <= i < |m| => if addr <= i < addr + |data| then cell(m[i], data[i - addr]) else m[i])
  }

  lemma FlatThen(m: seq<Byte>, addr: nat, a: seq<Byte>, b: seq<Byte>, cell: Cell)
    requires addr + |a| + |b| <= |m|
    ensures Flat(Flat(m, addr, a, cell), addr + |a|, b, cell) == Flat(m, addr, a + b, cell)
  {
  }

  /** Inside one page a burst is a flat write; the wrap is never reached. */
  lemma {:induction false} BurstInPageIsFlat(m: seq<Byte>, page: nat, addr: nat, data: seq<Byte>, cell: Cell)
    requires page > 0 && |m| % page == 0 && (data != [] ==> addr < |m|)
    requires addr + |data| <= |m| && addr % page + |data| <= page
    ensures Burst(m, page, addr, data, cell) == Flat(m, addr, data, cell)
    decreases |data|
  {
    if |data| == 1 {
      assert Burst(m, page, addr, data, cell) == m[addr := cell(m[addr], data[0])];
    } else if data != [] {
      var m1 := m[addr := cell(m[addr], data[0])];
      PageOf(page, addr, 1);
      BurstInPageIsFlat(m1, page, addr + 1, data[1..], cell);
      assert m1 == Flat(m, addr, data[..1], cell);
      FlatThen(m, addr, data[..1], data[1..], cell);
      assert data == data[..1] + data[1..];
    }
  }

  lemma PageEnds(size: nat, page: nat, addr: nat)
    requires page > 0 && size % page == 0 && addr < size
    ensures page - addr % page <= size - addr
    ensures page <= addr + (page - addr % page) && (addr + (page - addr % page) - page) % page == 0
  {
    var q, s := addr / page, size / page;
    assert addr == q * page + addr % page && size == s * page;
    assert (q + 1) * page == q * page + page;
    if s <= q {
      MulMono(s, q, page);
    } else {
      MulMono(q + 1, s, page);
    }
    assert addr + (page - addr % page) - page == q * page;
    MulMono(0, q, page);
    QuotientIsUnique(q * page, page, q, 0);
  }

  /** A burst that does cross the page end puts its tail at the start of the page, and the
      bytes after the page are not written. */
  lemma {:induction false} BurstWraps(m: seq<Byte>, page: nat, addr: nat, data: seq<Byte>, cell: Cell)
    requires page > 0 && |m| % page == 0 && addr < |m|
    requires page - addr % page < |data| <= page - addr % page + page
    ensures var room := page - addr % page;
      && page <= addr + room <= |m|
      && addr + |data| - page <= |m|
      && Burst(m, page, addr, data, cell)
        == Flat(Flat(m, addr, data[..room], cell), addr + room - page, data[room..], cell)
    decreases page - addr % page
  {
    hide Flat, Burst;
    var room := page - addr % page;
    PageEnds(|m|, page, addr);
    var m1 := m[addr := cell(m[addr], data[0])];
    FirstOfBurst(m, page, addr, data, cell);
    if room == 1 {
      BurstInPageIsFlat(m1, page, addr + 1 - page, data[1..], cell);
    } else {
      PageOf(page, addr, 1);
      BurstWraps(m1, page, addr + 1, data[1..], cell);
      HeadThenRest(m, addr, data, room, cell);
    }
  }

  lemma FirstOfBurst(m: seq<Byte>, page: nat, addr: nat, data: seq<Byte>, cell: Cell)
    requires page > 0 && |m| % page == 0 && addr < |m| && data != []
    ensures var m1, next := m[addr := cell(m[addr], data[0])], NextInPage(page, addr);
      && m1 == Flat(m, addr, data[..1], cell) && next < |m|
      && Burst(m, page, addr, data, cell) == Burst(m1, page, next, data[1..], cell)
  {
    WrapInside(|m|, page, addr);
  }

  lemma HeadThenRest(m: seq<Byte>, addr: nat, data: seq<Byte>, room: nat, cell: Cell)
    requires 1 <= room <= |data| && addr + room <= |m|
    ensures Flat(m[addr := cell(m[addr], data[0])], addr + 1, data[1..][..room - 1], cell)
      == Flat(m, addr, data[..room], cell)
    ensures data[1..][room - 1..] == data[room..]
  {
    assert m[addr := cell(m[addr], data[0])] == Flat(m, addr, data[..1], cell);
    FlatThen(m, addr, data[..1], data[1..][..room - 1], cell);
    assert data[..1] + data[1..][..room - 1] == data[..room];
  }
}
