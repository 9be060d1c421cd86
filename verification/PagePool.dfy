/** The page allocator of page.c: first fit over a list of free blocks, which merge with their list
    neighbours when they are freed. Pages are numbered from the start of memory. */
module PagePool {
  datatype Flag = Reserve | Used | Free

  /** A free block: the first page and the number of pages. */
  datatype Block = Block(start: nat, size: nat) {
    predicate Has(q: int) { start <= q < start + size }
  }

  // ---------------------------------------------------------------- lists of blocks

  ghost predicate Apart(a: Block, b: Block) { a.start + a.size <= b.start || b.start + b.size <= a.start }

  ghost predicate AllApart(bs: seq<Block>) {
    && (forall i :: 0 <= i < |bs| ==> bs[i].size > 0)
    && (forall i, j :: 0 <= i < j < |bs| ==> Apart(bs[i], bs[j]))
  }

  /** Page `q` lies in one of the blocks. */
  ghost predicate In(bs: seq<Block>, q: int) { exists i :: 0 <= i < |bs| && bs[i].Has(q) }

  ghost function Total(bs: seq<Block>): (n: nat) {
    if bs == [] then 0 else bs[0].size + Total(bs[1..])
  }

  lemma {:induction false} TotalSplit(bs: seq<Block>, cs: seq<Block>)
    ensures Total(bs + cs) == Total(bs) + Total(cs)
  {
    if bs == [] {
      assert bs + cs == cs;
    } else {
      TotalSplit(bs[1..], cs);
      assert (bs + cs)[1..] == bs[1..] + cs;
    }
  }

  /** The list without its `k`th block. */
  function Without(bs: seq<Block>, k: nat): (r: seq<Block>)
    requires k < |bs|
    ensures |r| == |bs| - 1
  {
    bs[..k] + bs[k + 1..]
  }

  /** The list with a block put in before its `k`th. */
  function With(bs: seq<Block>, k: nat, b: Block): (r: seq<Block>)
    requires k <= |bs|
    ensures |r| == |bs| + 1
  {
    bs[..k] + [b] + bs[k..]
  }

  lemma WithoutAt(bs: seq<Block>, k: nat, i: nat)
    requires k < |bs| && i < |bs| - 1
    ensures Without(bs, k)[i] == bs[if i < k then i else i + 1]
  {
  }

  lemma OnlyOne(bs: seq<Block>, i: nat, k: nat, q: int)
    requires AllApart(bs) && i < |bs| && k < |bs| && i != k
    ensures !(bs[i].Has(q) && bs[k].Has(q))
  {
    assert Apart(bs[if i < k then i else k], bs[if i < k then k else i]);
  }

  lemma WithoutIn(bs: seq<Block>, k: nat, q: int)
    requires AllApart(bs) && k < |bs|
    ensures In(Without(bs, k), q) <==> In(bs, q) && !bs[k].Has(q)
  {
    hide Without, Apart, AllApart;
    var r := Without(bs, k);
    if In(bs, q) && !bs[k].Has(q) {
      var i :| 0 <= i < |bs| && bs[i].Has(q);
      WithoutAt(bs, k, if i < k then i else i - 1);
      assert r[if i < k then i else i - 1].Has(q);
    }
    if In(r, q) {
      var i :| 0 <= i < |r| && r[i].Has(q);
      WithoutAt(bs, k, i);
      var j := if i < k then i else i + 1;
      assert bs[j].Has(q);
      OnlyOne(bs, j, k, q);
    }
  }

  lemma WithoutFacts(bs: seq<Block>, k: nat)
    requires AllApart(bs) && k < |bs|
    ensures AllApart(Without(bs, k)) && Total(Without(bs, k)) == Total(bs) - bs[k].size
    ensures forall q: int :: In(Without(bs, k), q) <==> In(bs, q) && !bs[k].Has(q)
  {
    forall q: int ensures In(Without(bs, k), q) <==> In(bs, q) && !bs[k].Has(q) {
      WithoutIn(bs, k, q);
    }
    WithoutTotal(bs, k);
    hide In, Total, Without, Apart;
    var r := Without(bs, k);
    forall i, j | 0 <= i < j < |r| ensures Apart(r[i], r[j]) {
      WithoutAt(bs, k, i);
      WithoutAt(bs, k, j);
    }
    forall i | 0 <= i < |r| ensures r[i].size > 0 {
      WithoutAt(bs, k, i);
    }
  }

  lemma WithoutTotal(bs: seq<Block>, k: nat)
    requires k < |bs|
    ensures Total(Without(bs, k)) == Total(bs) - bs[k].size
  {
    TotalSplit(bs[..k], bs[k + 1..]);
    TotalSplit(bs[..k], bs[k..]);
    assert bs == bs[..k] + bs[k..];
    assert bs[k..][1..] == bs[k + 1..];
  }

  lemma WithAt(bs: seq<Block>, k: nat, b: Block, i: nat)
    requires k <= |bs| && i <= |bs|
    ensures With(bs, k, b)[i] == if i < k then bs[i] else if i == k then b else bs[i - 1]
  {
  }

  lemma WithIn(bs: seq<Block>, k: nat, b: Block, q: int)
    requires k <= |bs|
    ensures In(With(bs, k, b), q) <==> In(bs, q) || b.Has(q)
  {
    var r := With(bs, k, b);
    hide With;
    WithAt(bs, k, b, k);
    if In(bs, q) {
      var i :| 0 <= i < |bs| && bs[i].Has(q);
      WithAt(bs, k, b, if i < k then i else i + 1);
      assert r[if i < k then i else i + 1].Has(q);
    }
    if In(r, q) {
      var i :| 0 <= i < |r| && r[i].Has(q);
      WithAt(bs, k, b, i);
    }
  }

  lemma NewApart(bs: seq<Block>, b: Block, i: nat)
    requires i < |bs| && bs[i].size > 0 && b.size > 0 && forall q: int :: b.Has(q) ==> !In(bs, q)
    ensures Apart(bs[i], b) && Apart(b, bs[i])
  {
    var q := if bs[i].start >= b.start then bs[i].start else b.start;
    assert bs[i].Has(q) ==> In(bs, q);
  }

  lemma WithFacts(bs: seq<Block>, k: nat, b: Block)
    requires AllApart(bs) && k <= |bs| && b.size > 0 && forall q: int :: b.Has(q) ==> !In(bs, q)
    ensures AllApart(With(bs, k, b)) && Total(With(bs, k, b)) == Total(bs) + b.size
    ensures forall q: int :: In(With(bs, k, b), q) <==> In(bs, q) || b.Has(q)
  {
    forall q: int ensures In(With(bs, k, b), q) <==> In(bs, q) || b.Has(q) {
      WithIn(bs, k, b, q);
    }
    WithTotal(bs, k, b);
    hide In, Total, With;
    var r := With(bs, k, b);
    forall i, j | 0 <= i < j < |r| ensures Apart(r[i], r[j]) && r[i].size > 0 && r[j].size > 0 {
      WithApart(bs, k, b, i, j);
    }
    WithAt(bs, k, b, 0);
  }

  lemma WithApart(bs: seq<Block>, k: nat, b: Block, i: nat, j: nat)
    requires AllApart(bs) && k <= |bs| && b.size > 0 && forall q: int :: b.Has(q) ==> !In(bs, q)
    requires i < j <= |bs|
    ensures Apart(With(bs, k, b)[i], With(bs, k, b)[j]) && With(bs, k, b)[i].size > 0 && With(bs, k, b)[j].size > 0
  {
    WithAt(bs, k, b, i);
    WithAt(bs, k, b, j);
    hide With, In, Apart;
    if i == k {
      NewApart(bs, b, j - 1);
    } else if j == k {
      NewApart(bs, b, i);
    }
  }

  lemma TotalInsert(a: seq<Block>, b: Block, c: seq<Block>)
    ensures Total(a + [b] + c) == Total(a + c) + b.size
  {
    assert a + [b] + c == a + ([b] + c);
    TotalSplit(a, [b] + c);
    TotalSplit(a, c);
    assert ([b] + c)[1..] == c;
  }

  lemma WithTotal(bs: seq<Block>, k: nat, b: Block)
    requires k <= |bs|
    ensures Total(With(bs, k, b)) == Total(bs) + b.size
  {
    TotalInsert(bs[..k], b, bs[k..]);
    assert bs == bs[..k] + bs[k..];
  }

  /** Two list neighbours that touch, as one block in the place of the first. */
  function Join(bs: seq<Block>, k: nat): (r: seq<Block>)
    requires k + 1 < |bs|
    ensures |r| == |bs| - 1
  {
    bs[..k] + [Block(bs[k].start, bs[k].size + bs[k + 1].size)] + bs[k + 2..]
  }

  lemma JoinFacts(bs: seq<Block>, k: nat)
    requires AllApart(bs) && k + 1 < |bs| && bs[k].start + bs[k].size == bs[k + 1].start
    ensures AllApart(Join(bs, k)) && Total(Join(bs, k)) == Total(bs)
    ensures forall q: int :: In(Join(bs, k), q) <==> In(bs, q)
  {
    hide Without, With, AllApart, Total, Join, In, Apart;
    var w := Without(bs, k + 1);
    WithoutFacts(bs, k + 1);
    var v := Without(w, k);
    WithoutAt(bs, k + 1, k);
    WithoutFacts(w, k);
    JoinSize(bs, k);
    var b := Block(bs[k].start, bs[k].size + bs[k + 1].size);
    forall q: int ensures In(bs, q) <==> In(v, q) || b.Has(q) {
      JoinIn(bs, k, q);
    }
    forall q: int | b.Has(q) ensures !In(v, q) {
      assert b.Has(q) <==> bs[k].Has(q) || bs[k + 1].Has(q);
    }
    WithFacts(v, k, b);
    JoinIs(bs, k);
  }

  lemma JoinSize(bs: seq<Block>, k: nat)
    requires AllApart(bs) && k < |bs|
    ensures bs[k].size > 0
  {
  }

  lemma JoinIn(bs: seq<Block>, k: nat, q: int)
    requires AllApart(bs) && k + 1 < |bs| && bs[k].start + bs[k].size == bs[k + 1].start
    ensures In(bs, q) <==>
      In(Without(Without(bs, k + 1), k), q) || Block(bs[k].start, bs[k].size + bs[k + 1].size).Has(q)
  {
    WithoutFacts(bs, k + 1);
    WithoutAt(bs, k + 1, k);
    WithoutIn(bs, k + 1, q);
    WithoutIn(Without(bs, k + 1), k, q);
    hide Without, AllApart;
    assert bs[k].Has(q) ==> In(bs, q);
    assert bs[k + 1].Has(q) ==> In(bs, q);
  }

  lemma JoinIs(bs: seq<Block>, k: nat)
    requires k + 1 < |bs|
    ensures With(Without(Without(bs, k + 1), k), k, Block(bs[k].start, bs[k].size + bs[k + 1].size)) == Join(bs, k)
  {
    var v := Without(Without(bs, k + 1), k);
    assert v[..k] == bs[..k] && v[k..] == bs[k + 2..];
  }

  /** A block of the list is no bigger than the whole. */
  lemma {:induction false} SizeInTotal(bs: seq<Block>, i: nat)
    requires i < |bs|
    ensures bs[i].size <= Total(bs)
  {
    if i > 0 {
      SizeInTotal(bs[1..], i - 1);
    }
  }

  // ---------------------------------------------------------------- the pool

  datatype Page = Page(flag: Flag, refCnt: int, freeNum: nat)

  /** The blocks of a list of first pages, by the sizes that `pages` holds for them. */
  ghost function BlocksOf(list: seq<nat>, pages: seq<Page>): (bs: seq<Block>)
    ensures |bs| == |list|
  {
    seq(|list|, i requires 0 <= i < |list| => Block(list[i], if list[i] < |pages| then pages[list[i]].freeNum else 0))
  }

  lemma BlocksFrame(list: seq<nat>, pages: seq<Page>, pages': seq<Page>)
    requires |pages| == |pages'| && forall i :: 0 <= i < |list| && list[i] < |pages| ==>
      pages'[list[i]].freeNum == pages[list[i]].freeNum
    ensures BlocksOf(list, pages') == BlocksOf(list, pages)
  {
  }

  /** Pages below `first` are reserved; of the others exactly those of the listed blocks are free, with no
      reference, and the rest are used, with one. The blocks lie apart and `total` is their sum. */
  ghost predicate Partition(bs: seq<Block>, pages: seq<Page>, first: nat, total: int) {
    && AllApart(bs) && total == Total(bs)
    && (forall q: int :: In(bs, q) ==> first <= q < |pages|)
    && (forall q: int :: 0 <= q < |pages| ==>
          && (pages[q].flag == Reserve <==> q < first)
          && (pages[q].flag == Free <==> In(bs, q))
          && (q >= first ==> pages[q].refCnt == if pages[q].flag == Used then 1 else 0))
  }

  class Pool {
    const pages: array<Page>
    const first: nat
    var list: seq<nat>
    var pageNum: int

    ghost function Blocks(): (bs: seq<Block>)
      reads this, pages
    {
      BlocksOf(list, pages[..])
    }

    ghost predicate Valid()
      reads this, pages
    {
      Partition(Blocks(), pages[..], first, pageNum)
    }

    /** `page_init`: the pages of the SBI and the kernel are reserved, all others are one free block. */
    constructor (count: nat, first: nat)
      requires first < count
      ensures Valid() && fresh(pages) && pages.Length == count && this.first == first
      ensures Blocks() == [Block(first, count - first)]
    {
      this.first := first;
      this.pages := new Page[count](q => if q < first then Page(Reserve, 1, 0)
        else Page(Free, 0, if q == first then count - first else 0));
      this.list := [first];
      this.pageNum := count - first;
      new;
      assert Blocks()[0].Has(first);
      assert Total(Blocks()) == count - first + Total([]);
      forall q: int ensures In(Blocks(), q) <==> first <= q < count {
        assert Blocks()[0].Has(q) <==> first <= q < count;
      }
    }

    /** The search of `alloc_pages`. */
    method Find(n: nat) returns (k: nat)
      requires Valid()
      ensures k <= |list| && (k < |list| ==> FirstFit(Blocks(), n, k))
      ensures k == |list| ==> forall i :: 0 <= i < |Blocks()| ==> Blocks()[i].size < n
    {
      hide Total, In, AllApart;
      ghost var bs := Blocks();
      k := 0;
      BlocksInside(bs, pages[..], first, pageNum);
      assert forall i :: 0 <= i < |bs| ==> bs[i].start == list[i];
      while k < |list| && pages[list[k]].freeNum < n
        invariant 0 <= k <= |list| && forall i :: 0 <= i < k ==> bs[i].size < n
      {
        k := k + 1;
      }
    }

    method MarkUsed(page: nat, n: nat)
      requires page + n <= pages.Length
      modifies pages
      ensures forall q: int :: 0 <= q < pages.Length ==>
                pages[q] == if page <= q < page + n then Page(Used, old(pages[..])[q].refCnt + 1, 0)
                  else old(pages[..])[q]
    {
      ghost var was := pages[..];
      for t := page to page + n
        invariant forall q: int :: 0 <= q < pages.Length ==>
                    pages[q] == if page <= q < t then Page(Used, was[q].refCnt + 1, 0) else was[q]
      {
        pages[t] := Page(Used, pages[t].refCnt + 1, 0);
      }
    }

    /** The end of `alloc_pages`: take `n` pages off the `k`th listed block and list what is left in front. */
    method Take(n: nat, k: nat) returns (page: nat)
      requires Valid() && k < |list| && Blocks()[k].size >= n
      modifies this, pages
      ensures Valid() && first <= page == old(Blocks())[k].start && Blocks() == Taken(old(Blocks()), k, n)
      ensures page + n <= pages.Length && forall q: int :: page <= q < page + n ==> In(old(Blocks()), q)
      ensures forall q: int :: 0 <= q < pages.Length ==>
                pages[q].flag == if page <= q < page + n then Used else old(pages[..])[q].flag
    {
      hide Total, In, AllApart;
      ghost var bs, was, l, total := Blocks(), pages[..], list, pageNum;
      BlocksInside(bs, was, first, total);
      page := list[k];
      var size := pages[page].freeNum;
      list := list[..k] + list[k + 1..];
      if size > n {
        pages[page + n] := pages[page + n].(freeNum := size - n);
        list := [page + n] + list;
      }
      MarkUsed(page, n);
      pageNum := pageNum - n;
      TakenBlocks(l, was, pages[..], k, n, list);
      TakenPartition(bs, was, first, total, k, n, pages[..]);
    }

    /** `alloc_pages`: the first pages of the first listed block that has `n`; -1 if no block has. */
    method AllocPages(n: nat) returns (page: int)
      requires Valid()
      modifies this, pages
      ensures Valid()
      ensures page == -1 <==> forall i :: 0 <= i < |old(Blocks())| ==> old(Blocks())[i].size < n
      ensures page == -1 ==> Blocks() == old(Blocks()) && pages[..] == old(pages[..])
      ensures page != -1 ==> 0 <= page && page + n <= pages.Length
      ensures page != -1 ==> exists k: nat :: FirstFit(old(Blocks()), n, k) && page == old(Blocks())[k].start
                                              && Blocks() == Taken(old(Blocks()), k, n)
      ensures page != -1 ==>
        page >= first && forall q: int :: page <= q < page + n ==>
        In(old(Blocks()), q) && old(pages[..])[q].flag == Free
      ensures page != -1 ==> forall q: int :: 0 <= q < pages.Length ==>
                pages[q].flag == if page <= q < page + n then Used else old(pages[..])[q].flag
    {
      hide Total, In, AllApart, Taken;
      if n > pageNum {
        NoneFits(Blocks(), n);
        return -1;
      }
      var k := Find(n);
      if k == |list| {
        return -1;
      }
      page := Take(n, k);
    }

    /** Merge the `k`th listed block with the next one of the list, which it touches. */
    method Absorb(k: nat)
      requires Valid() && k + 1 < |list| && Touch(Blocks(), k)
      modifies this, pages
      ensures Valid() && pageNum == old(pageNum) && Blocks() == Join(old(Blocks()), k)
      ensures list == old(list)[..k + 1] + old(list)[k + 2..]
      ensures forall q: int :: In(Blocks(), q) <==> In(old(Blocks()), q)
      ensures forall q: int :: 0 <= q < pages.Length ==> pages[q].flag == old(pages[..])[q].flag
    {
      hide Total, In, AllApart, Join, Apart, Partition, BlocksOf, Touch;
      ghost var bs, was, l := Blocks(), pages[..], list;
      HeadAt(l, was, first, pageNum, k);
      HeadAt(l, was, first, pageNum, k + 1);
      var p, next := list[k], list[k + 1];
      pages[p] := pages[p].(freeNum := pages[p].freeNum + pages[next].freeNum);
      list := list[..k + 1] + list[k + 2..];
      JoinBlocks(l, was, first, pageNum, k);
      JoinKeeps(bs, was, first, pageNum, k, pages[..]);
    }

    /** Merge the `k`th listed block with the next one of the list if they touch. */
    method JoinNext(k: nat) returns (joined: bool)
      requires Valid() && k < |list|
      modifies this, pages
      ensures Valid() && pageNum == old(pageNum) && joined == Touch(old(Blocks()), k)
      ensures Blocks() == if joined then Join(old(Blocks()), k) else old(Blocks())
      ensures list == if joined then old(list)[..k + 1] + old(list)[k + 2..] else old(list)
      ensures forall q: int :: In(Blocks(), q) <==> In(old(Blocks()), q)
      ensures forall q: int :: 0 <= q < pages.Length ==> pages[q].flag == old(pages[..])[q].flag
    {
      ghost var bs, was, l := Blocks(), pages[..], list;
      hide Total, In, AllApart, Join, Apart, Partition, BlocksOf, Touch;
      joined := false;
      HeadAt(l, was, first, pageNum, k);
      if k + 1 < |list| {
        HeadAt(l, was, first, pageNum, k + 1);
        var p, next := list[k], list[k + 1];
        if p + pages[p].freeNum == next {
          Absorb(k);
          joined := true;
        }
      }
    }

    /** Put the block at `page`, whose size is already noted there, in before the first listed block behind it. */
    method Enlist(page: nat, n: nat) returns (k: nat)
      requires forall i :: 0 <= i < |list| ==> list[i] < pages.Length && list[i] != page
      requires AllApart(Blocks()) && page + n <= pages.Length && n >= 1 && pages[page].freeNum == n
      requires forall q: int :: page <= q < page + n ==> !In(Blocks(), q)
      modifies `list
      ensures k <= |old(Blocks())| && Blocks() == With(old(Blocks()), k, Block(page, n))
      ensures AllApart(Blocks()) && Total(Blocks()) == Total(old(Blocks())) + n
      ensures forall q: int :: In(Blocks(), q) <==> In(old(Blocks()), q) || page <= q < page + n
    {
      ghost var bs, l := Blocks(), list;
      hide Total, In, AllApart;
      k := 0;
      while k < |list| && !(page < list[k])
        modifies {}
        invariant 0 <= k <= |list|
      {
        k := k + 1;
      }
      list := list[..k] + [page] + list[k..];
      forall i | 0 <= i <= |l| ensures Blocks()[i] == With(bs, k, Block(page, n))[i] {
        WithAt(bs, k, Block(page, n), i);
      }
      WithFacts(bs, k, Block(page, n));
    }

    /** The first loop of `free_pages`: the pages from `page` on become free, up to the first that is not used. */
    method Release(page: nat, n: nat) returns (all: bool)
      requires page + n <= pages.Length
      modifies pages
      ensures all <==> AllUsed(old(pages[..]), page, n)
      ensures forall q: int :: 0 <= q < pages.Length ==> pages[q] == Released(old(pages[..]), page, n, q)
    {
      ghost var was := pages[..];
      for p := page to page + n
        modifies pages
        invariant forall q: int :: page <= q < p ==> was[q].flag == Used
        invariant forall q: int :: 0 <= q < pages.Length ==>
                    pages[q] == if page <= q < p then Page(Free, was[q].refCnt - 1, was[q].freeNum) else was[q]
      {
        if pages[p].flag != Used {
          assert forall q: int :: page <= q < page + n && UsedThrough(was, page, q) ==> q < p;
          return false;
        }
        pages[p] := Page(Free, pages[p].refCnt - 1, pages[p].freeNum);
      }
      all := true;
    }

    /** The rest of `free_pages`: list the freed block and merge it with its list neighbours. */
    method ListAndMerge(page: nat, n: nat, ghost was: seq<Page>)
      requires Partition(BlocksOf(list, was), was, first, pageNum) && |was| == pages.Length && n >= 1
        && page + n <= pages.Length
      requires AllUsed(was, page, n) && forall q: int :: 0 <= q < pages.Length ==> pages[q] == Released(was, page, n, q)
      modifies this, pages
      ensures Valid() && pageNum == old(pageNum) + n
      ensures forall q: int :: In(Blocks(), q) <==> In(BlocksOf(old(list), was), q) || page <= q < page + n
      ensures forall q: int :: 0 <= q < pages.Length ==> pages[q].flag == old(pages[..])[q].flag
    {
      ghost var bs, l, total := BlocksOf(list, was), list, pageNum;
      FreedHeads(list, was, pages[..], first, pageNum, page, n);
      pages[page] := pages[page].(freeNum := n);
      pageNum := pageNum + n;
      BlocksFrame(l, was, pages[..]);
      hide Total, AllApart, BlocksOf, Released;
      var k := Enlist(page, n);
      FreedPartition(bs, was, first, total, page, n, Blocks(), pages[..]);
      hide In, AllUsed, Partition;
      Merge(k);
    }

    /** Merge the `k`th listed block with its list neighbours. */
    method Merge(k: nat)
      requires Valid() && k < |list|
      modifies this, pages
      ensures Valid() && pageNum == old(pageNum)
      ensures forall q: int :: In(Blocks(), q) <==> In(old(Blocks()), q)
      ensures forall q: int :: 0 <= q < pages.Length ==> pages[q].flag == old(pages[..])[q].flag
    {
      hide Total, AllApart, BlocksOf, In, Partition;
      var at := k;
      if at > 0 {
        var joined := JoinNext(at - 1);
        if joined {
          at := at - 1;
        }
      }
      var next := JoinNext(at);
    }

    /** `free_pages`: give back `n` pages that are in use. Should one of them not be in use, those before it become
        free without being listed and are lost, so the pool stays valid just if the first one was not in use. */
    method FreePages(page: nat, n: nat)
      requires Valid() && n >= 1 && page + n <= pages.Length
      modifies this, pages
      ensures AllUsed(old(pages[..]), page, n) ==> Valid() && pageNum == old(pageNum) + n
      ensures AllUsed(old(pages[..]), page, n) ==>
                forall q: int :: In(Blocks(), q) <==> In(old(Blocks()), q) || page <= q < page + n
      ensures AllUsed(old(pages[..]), page, n) ==>
                forall q: int :: 0 <= q < pages.Length ==>
                  pages[q].flag == if page <= q < page + n then Free else old(pages[..])[q].flag
      ensures !AllUsed(old(pages[..]), page, n) ==>
        Blocks() == old(Blocks()) && (Valid() <==> old(pages[..])[page].flag != Used)
      ensures !AllUsed(old(pages[..]), page, n) ==> forall q: int :: 0 <= q < pages.Length ==>
                (Lost(Blocks(), pages[..], q) <==> page <= q < page + n && UsedThrough(old(pages[..]), page, q))
    {
      ghost var was := pages[..];
      var all := Release(page, n);
      if !all {
        BlocksFrame(list, was, pages[..]);
        Leak(Blocks(), was, first, pageNum, page, n, pages[..]);
        LostPrefix(Blocks(), was, first, pageNum, page, n, pages[..]);
        return;
      }
      ListAndMerge(page, n, was);
    }
  }

  /** A page is allocated and released together with the one behind it, which is free: the page becomes free, but it is
      on no list. */
  method LostPage(count: nat, first: nat) returns (pool: Pool, page: int)
    requires first + 2 <= count
    ensures Lost(pool.Blocks(), pool.pages[..], page) && !pool.Valid()
  {
    hide Partition, Total, AllApart, Taken, In;
    pool := new Pool(count, first);
    OneBlock(pool, count - first);
    ghost var bs := pool.Blocks();
    page := pool.AllocPages(1);
    assert bs[0].size >= 1;
    assert page == first;
    ghost var was := pool.pages[..];
    assert was[page].flag == Used && was[page + 1].flag == Free;
    pool.FreePages(first, 2);
    assert UsedThrough(was, page, page);
  }

  lemma OneBlock(pool: Pool, n: nat)
    requires pool.Valid() && pool.Blocks() == [Block(pool.first, n)] && n >= 2
    ensures pool.first + 1 < pool.pages.Length && pool.pages[pool.first + 1].flag == Free
  {
    assert pool.Blocks()[0].Has(pool.first + 1);
    assert In(pool.Blocks(), pool.first + 1);
  }

  ghost predicate FirstFit(bs: seq<Block>, n: nat, k: nat) {
    k < |bs| && bs[k].size >= n && forall i :: 0 <= i < k ==> bs[i].size < n
  }

  lemma NoneFits(bs: seq<Block>, n: nat)
    requires Total(bs) < n
    ensures forall i :: 0 <= i < |bs| ==> bs[i].size < n
  {
    forall i | 0 <= i < |bs| ensures bs[i].size < n {
      SizeInTotal(bs, i);
    }
  }

  /** The blocks after `n` pages were taken off the `k`th. */
  ghost function Taken(bs: seq<Block>, k: nat, n: nat): (r: seq<Block>)
    requires k < |bs| && n <= bs[k].size
  {
    if bs[k].size > n then With(Without(bs, k), 0, Block(bs[k].start + n, bs[k].size - n)) else Without(bs, k)
  }

  /** The blocks after a request of one page: the first block loses a page, if there is a block. */
  ghost function LessPage(bs: seq<Block>): (r: seq<Block>) {
    if bs == [] || bs[0].size < 1 then bs else Taken(bs, 0, 1)
  }

  lemma BlocksInside(bs: seq<Block>, pages: seq<Page>, first: nat, total: int)
    requires Partition(bs, pages, first, total)
    ensures forall i :: 0 <= i < |bs| ==> bs[i].size > 0 && first <= bs[i].start && bs[i].start + bs[i].size <= |pages|
    ensures forall i, q: int :: 0 <= i < |bs| && bs[i].Has(q) ==> In(bs, q)
    ensures forall i, j :: 0 <= i < j < |bs| ==> Apart(bs[i], bs[j])
  {
    forall i | 0 <= i < |bs| ensures bs[i].size > 0 && first <= bs[i].start && bs[i].start + bs[i].size <= |pages| {
      assert bs[i].Has(bs[i].start) && bs[i].Has(bs[i].start + bs[i].size - 1);
      assert In(bs, bs[i].start) && In(bs, bs[i].start + bs[i].size - 1);
    }
  }

  /** `pages` comes from `was` by splitting the `k`th listed block after `n` pages and changing only those. */
  ghost predicate Split(list: seq<nat>, was: seq<Page>, pages: seq<Page>, k: nat, n: nat)
    requires k < |list|
  {
    var bs := BlocksOf(list, was);
    && |pages| == |was| && bs[k].size >= n
    && (forall i :: 0 <= i < |bs| ==> bs[i].size > 0 && bs[i].start + bs[i].size <= |was|)
    && (forall i, j :: 0 <= i < j < |bs| ==> Apart(bs[i], bs[j]))
    && (forall q: int :: 0 <= q < |was| && !(list[k] <= q < list[k] + n) && q != list[k] + n ==> pages[q] == was[q])
    && (bs[k].size > n ==> pages[list[k] + n].freeNum == bs[k].size - n)
    && (bs[k].size == n && list[k] + n < |was| ==> pages[list[k] + n] == was[list[k] + n])
  }

  /** The list without its `k`th block, and what is left of it in front. */
  ghost predicate Relisted(list: seq<nat>, was: seq<Page>, k: nat, n: nat, list': seq<nat>)
    requires k < |list|
  {
    list' == if BlocksOf(list, was)[k].size > n then [list[k] + n] + (list[..k] + list[k + 1..])
      else list[..k] + list[k + 1..]
  }

  lemma HeadKept(list: seq<nat>, was: seq<Page>, pages: seq<Page>, k: nat, n: nat, i: nat)
    requires k < |list| && Split(list, was, pages, k, n) && i < |list| && i != k
    ensures list[i] < |was| && pages[list[i]].freeNum == BlocksOf(list, was)[i].size
  {
    var bs := BlocksOf(list, was);
    assert Apart(bs[if i < k then i else k], bs[if i < k then k else i]);
    assert bs[i].start == list[i] && bs[k].start == list[k];
  }

  /** The list that `Take` leaves holds the blocks `Taken`. */
  lemma TakenBlocks(list: seq<nat>, was: seq<Page>, pages: seq<Page>, k: nat, n: nat, list': seq<nat>)
    requires k < |list| && Split(list, was, pages, k, n)
    requires Relisted(list, was, k, n, list')
    ensures BlocksOf(list', pages) == Taken(BlocksOf(list, was), k, n)
  {
    hide Without, BlocksOf, Split, With, Relisted;
    TakenRest(list, was, pages, k, n, list');
    if BlocksOf(list, was)[k].size > n {
      FrontTaken(list, was, pages, k, n, list', BlocksOf(list', pages), Without(BlocksOf(list, was), k));
    } else {
      AllTaken(list, was, pages, k, n, list', BlocksOf(list', pages), Without(BlocksOf(list, was), k));
    }
  }

  lemma FrontTaken(list: seq<nat>, was: seq<Page>, pages: seq<Page>, k: nat, n: nat, list': seq<nat>,
    bs': seq<Block>, w: seq<Block>)
    requires k < |list| && Split(list, was, pages, k, n) && Relisted(list, was, k, n, list')
      && BlocksOf(list, was)[k].size > n
    requires bs' == BlocksOf(list', pages) && |bs'| == |list| && w == Without(BlocksOf(list, was), k)
    ensures bs' == With(w, 0, bs'[0])
  {
    hide Without, BlocksOf, Split, Relisted, With;
    forall i | 0 <= i < |w| ensures bs'[1 + i] == w[i] {
      TakenBlock(list, was, pages, k, n, list', i);
    }
    Front(bs', w, bs'[0]);
  }

  lemma AllTaken(list: seq<nat>, was: seq<Page>, pages: seq<Page>, k: nat, n: nat, list': seq<nat>, bs': seq<Block>,
    w: seq<Block>)
    requires k < |list| && Split(list, was, pages, k, n) && Relisted(list, was, k, n, list')
      && BlocksOf(list, was)[k].size == n
    requires bs' == BlocksOf(list', pages) && |bs'| == |list| - 1 && w == Without(BlocksOf(list, was), k)
    ensures bs' == w
  {
    hide Without, BlocksOf, Split, Relisted;
    forall i | 0 <= i < |w| ensures bs'[i] == w[i] {
      TakenBlock(list, was, pages, k, n, list', i);
    }
  }

  lemma Front(bs: seq<Block>, rest: seq<Block>, b: Block)
    requires |bs| == |rest| + 1 && bs[0] == b && forall i :: 0 <= i < |rest| ==> bs[1 + i] == rest[i]
    ensures bs == With(rest, 0, b)
  {
    assert bs[1..] == rest;
  }

  lemma TakenBlock(list: seq<nat>, was: seq<Page>, pages: seq<Page>, k: nat, n: nat, list': seq<nat>, i: nat)
    requires k < |list| && Split(list, was, pages, k, n) && i < |list| - 1
    requires Relisted(list, was, k, n, list')
    ensures var o := if BlocksOf(list, was)[k].size > n then 1 else 0;
            o + i < |list'| && BlocksOf(list', pages)[o + i] == Without(BlocksOf(list, was), k)[i]
  {
    var bs := BlocksOf(list, was);
    var o := if bs[k].size > n then 1 else 0;
    var j := if i < k then i else i + 1;
    HeadKept(list, was, pages, k, n, j);
    WithoutAt(bs, k, i);
    hide Without, Split, Relisted;
    RelistedAt(list, was, k, n, list', i);
  }

  lemma RelistedAt(list: seq<nat>, was: seq<Page>, k: nat, n: nat, list': seq<nat>, i: nat)
    requires k < |list| && Relisted(list, was, k, n, list') && i < |list| - 1
    ensures var o := if BlocksOf(list, was)[k].size > n then 1 else 0;
            o + i < |list'| && list'[o + i] == list[if i < k then i else i + 1]
  {
    hide BlocksOf;
    var rest := list[..k] + list[k + 1..];
    assert rest[i] == list[if i < k then i else i + 1];
  }

  lemma TakenRest(list: seq<nat>, was: seq<Page>, pages: seq<Page>, k: nat, n: nat, list': seq<nat>)
    requires k < |list| && Split(list, was, pages, k, n)
    requires Relisted(list, was, k, n, list')
    ensures BlocksOf(list, was)[k].start == list[k]
      && |list'| == (if BlocksOf(list, was)[k].size > n then |list| else |list| - 1)
    ensures BlocksOf(list, was)[k].size >= n
    ensures BlocksOf(list, was)[k].size > n ==>
      BlocksOf(list', pages)[0] == Block(list[k] + n, BlocksOf(list, was)[k].size - n)
  {
    var bs := BlocksOf(list, was);
    assert bs[k].size > n ==> list[k] + n < |was| && list'[0] == list[k] + n by {
      assert bs[k].start + bs[k].size <= |was|;
    }
    hide Apart;
  }

  lemma TakenPartition(bs: seq<Block>, was: seq<Page>, first: nat, total: int, k: nat, n: nat, pages: seq<Page>)
    requires Partition(bs, was, first, total) && k < |bs| && n <= bs[k].size && |pages| == |was|
    requires forall q: int :: 0 <= q < |was| ==>
               if bs[k].start <= q < bs[k].start + n then pages[q].flag == Used && pages[q].refCnt == was[q].refCnt + 1
               else pages[q].flag == was[q].flag && pages[q].refCnt == was[q].refCnt
    ensures Partition(Taken(bs, k, n), pages, first, total - n)
  {
    TakenFacts(bs, k, n);
    BlocksInside(bs, was, first, total);
    hide Total, In, AllApart, Taken;
    assert forall q: int :: bs[k].start <= q < bs[k].start + n ==> bs[k].Has(q);
  }

  lemma HasIn(bs: seq<Block>, k: nat)
    requires k < |bs|
    ensures forall q: int :: bs[k].Has(q) ==> In(bs, q)
  {
  }

  lemma TakenFacts(bs: seq<Block>, k: nat, n: nat)
    requires AllApart(bs) && k < |bs| && n <= bs[k].size
    ensures AllApart(Taken(bs, k, n)) && Total(Taken(bs, k, n)) == Total(bs) - n
    ensures forall q: int :: In(Taken(bs, k, n), q) <==> In(bs, q) && !(bs[k].start <= q < bs[k].start + n)
  {
    hide Total, AllApart, Without, In, With, Apart;
    WithoutFacts(bs, k);
    HasIn(bs, k);
    if bs[k].size > n {
      var rest := Block(bs[k].start + n, bs[k].size - n);
      assert forall q: int :: rest.Has(q) ==> bs[k].Has(q);
      WithFacts(Without(bs, k), 0, rest);
    }
  }

  ghost predicate Touch(bs: seq<Block>, k: nat) {
    k + 1 < |bs| && bs[k].start + bs[k].size == bs[k + 1].start
  }

  lemma HeadAt(list: seq<nat>, pages: seq<Page>, first: nat, total: int, i: nat)
    requires Partition(BlocksOf(list, pages), pages, first, total) && i < |list|
    ensures list[i] < |pages|
    ensures Touch(BlocksOf(list, pages), i) <==> i + 1 < |list| && list[i] + pages[list[i]].freeNum == list[i + 1]
  {
    var bs := BlocksOf(list, pages);
    BlocksInside(bs, pages, first, total);
    hide Total, In, AllApart, Partition;
    assert bs[i].start == list[i];
    if i + 1 < |list| {
      assert bs[i + 1].start == list[i + 1];
    }
  }

  lemma JoinBlocks(list: seq<nat>, pages: seq<Page>, first: nat, total: int, k: nat)
    requires Partition(BlocksOf(list, pages), pages, first, total) && k + 1 < |list| && list[k] < |pages|
      && list[k + 1] < |pages|
    ensures var pages' := pages[list[k] := pages[list[k]].(freeNum := pages[list[k]].freeNum
      + pages[list[k + 1]].freeNum)];
            BlocksOf(list[..k + 1] + list[k + 2..], pages') == Join(BlocksOf(list, pages), k)
  {
    hide Partition, Total, In, AllApart;
    forall i | 0 <= i < |list| ensures list[i] < |pages| && (i != k ==> list[i] != list[k]) {
      OtherHead(list, pages, first, total, k, i);
    }
  }

  lemma OtherHead(list: seq<nat>, pages: seq<Page>, first: nat, total: int, k: nat, i: nat)
    requires Partition(BlocksOf(list, pages), pages, first, total) && k < |list| && i < |list|
    ensures list[i] < |pages| && (i != k ==> list[i] != list[k])
  {
    var bs := BlocksOf(list, pages);
    BlocksInside(bs, pages, first, total);
    hide Partition, Total, In, AllApart;
    assert bs[i].start == list[i] && bs[k].start == list[k];
    if i != k {
      assert Apart(bs[if i < k then i else k], bs[if i < k then k else i]);
    }
  }

  lemma JoinKeeps(bs: seq<Block>, pages: seq<Page>, first: nat, total: int, k: nat, pages': seq<Page>)
    requires Partition(bs, pages, first, total) && Touch(bs, k) && SameFlags(pages, pages')
    ensures Partition(Join(bs, k), pages', first, total)
    ensures forall q: int :: In(Join(bs, k), q) <==> In(bs, q)
  {
    JoinFacts(bs, k);
    hide Total, In, AllApart, Join, Apart;
  }

  ghost predicate SameFlags(pages: seq<Page>, pages': seq<Page>) {
    |pages'| == |pages| && forall q: int :: 0 <= q < |pages| ==>
      pages'[q].flag == pages[q].flag && pages'[q].refCnt == pages[q].refCnt
  }

  ghost predicate AllUsed(pages: seq<Page>, page: nat, n: nat) {
    page + n <= |pages| && forall q: int :: page <= q < page + n ==> pages[q].flag == Used
  }

  ghost predicate UsedThrough(pages: seq<Page>, page: nat, q: int)
    requires q < |pages|
  {
    forall r: int :: page <= r <= q ==> pages[r].flag == Used
  }

  /** Page `q` after the first loop of `free_pages`. */
  ghost function Released(pages: seq<Page>, page: nat, n: nat, q: int): (p: Page)
    requires 0 <= q < |pages|
  {
    if page <= q < page + n && UsedThrough(pages, page, q) then Page(Free, pages[q].refCnt - 1, pages[q].freeNum)
      else pages[q]
  }

  /** No page in use is the first of a listed block. */
  lemma FreedHeads(list: seq<nat>, was: seq<Page>, pages: seq<Page>, first: nat, total: int, page: nat, n: nat)
    requires Partition(BlocksOf(list, was), was, first, total) && |pages| == |was| && AllUsed(was, page, n) && n >= 1
    requires forall q: int :: 0 <= q < |was| ==> pages[q] == Released(was, page, n, q)
    ensures forall i :: 0 <= i < |list| ==>
      list[i] < |pages| && list[i] != page && pages[list[i]].freeNum == was[list[i]].freeNum
    ensures AllApart(BlocksOf(list, was)) && forall q: int :: page <= q < page + n ==> !In(BlocksOf(list, was), q)
  {
    var bs := BlocksOf(list, was);
    BlocksInside(bs, was, first, total);
    forall i | 0 <= i < |list| ensures list[i] < |pages| && list[i] != page
      && pages[list[i]].freeNum == was[list[i]].freeNum {
      assert bs[i].start == list[i] && bs[i].Has(list[i]);
      assert In(bs, list[i]);
    }
  }

  lemma FreedPartition(bs: seq<Block>, was: seq<Page>, first: nat, total: int, page: nat, n: nat, bs': seq<Block>,
    pages: seq<Page>)
    requires Partition(bs, was, first, total) && AllUsed(was, page, n) && |pages| == |was|
    requires AllApart(bs') && Total(bs') == total + n
    requires forall q: int :: In(bs', q) <==> In(bs, q) || page <= q < page + n
    requires forall q: int :: 0 <= q < |was| ==>
      pages[q].flag == Released(was, page, n, q).flag && pages[q].refCnt == Released(was, page, n, q).refCnt
    ensures Partition(bs', pages, first, total + n)
  {
    hide Total, AllApart, In;
    forall q: int | 0 <= q < |was|
      ensures (pages[q].flag == Reserve <==> q < first) && (pages[q].flag == Free <==> In(bs', q))
      ensures q >= first ==> pages[q].refCnt == if pages[q].flag == Used then 1 else 0
    {
      if page <= q < page + n {
        assert UsedThrough(was, page, q);
      }
    }
  }

  /** A release that was broken off leaves free pages that no block lists, unless nothing was released. */
  /** The page is free and on no list. */
  ghost predicate Lost(bs: seq<Block>, pages: seq<Page>, q: int) {
    0 <= q < |pages| && pages[q].flag == Free && !In(bs, q)
  }

  /** What is lost are the pages in use in front of the first that is not. */
  lemma LostPrefix(bs: seq<Block>, was: seq<Page>, first: nat, total: int, page: nat, n: nat, pages: seq<Page>)
    requires Partition(bs, was, first, total) && page + n <= |was| == |pages|
    requires forall q: int :: 0 <= q < |was| ==> pages[q] == Released(was, page, n, q)
    ensures forall q: int :: 0 <= q < |was| ==>
              (Lost(bs, pages, q) <==> page <= q < page + n && UsedThrough(was, page, q))
  {
    hide Total, AllApart, In;
  }

  lemma Leak(bs: seq<Block>, was: seq<Page>, first: nat, total: int, page: nat, n: nat, pages: seq<Page>)
    requires Partition(bs, was, first, total) && n >= 1 && page + n <= |was| == |pages| && !AllUsed(was, page, n)
    requires forall q: int :: 0 <= q < |was| ==> pages[q] == Released(was, page, n, q)
    ensures Partition(bs, pages, first, total) <==> was[page].flag != Used
  {
    hide Total, AllApart, In;
    assert UsedThrough(was, page, page) <==> was[page].flag == Used;
    if was[page].flag != Used {
      assert pages == was;
    } else {
      assert pages[page].flag == Free && !In(bs, page);
    }
  }
}
