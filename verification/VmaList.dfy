/** The list of virtual memory areas of a process: vmm.c and the brk, mmap and munmap calls of procsyscall.c. */
module VmaList {
  import opened PageAddress

  const MAP_LOW: nat := 0x2000000000
  const MAP_TOP: nat := 0x3000000000
  const WORD: nat := 0x1_0000_0000_0000_0000

  datatype Kind = Prog | Data | Brk | Mmap

  datatype Vma = Vma(va: nat, size: nat, kind: Kind) {
    predicate Has(u: int) { va <= u < va + size }
  }

  /** The page after that of `a`. */
  function Next(a: nat): (r: nat) { PageDown(a) + 4096 }

  /** The number of pages that a growing heap gets. */
  function PagesUp(brk: nat, addr: nat): (n: int) { (PageDown(addr) - PageDown(brk)) / 4096 }

  /** `PAGEUP`, which wraps to 0 for the last addresses. */
  function PageUp(a: nat): (r: nat)
    ensures r % 4096 == 0
  {
    PageDown((a + 4095) % WORD)
  }

  /** A length comes to whole pages that hold it, but for the last ones below 2^64, which come to nothing. */
  lemma PageUpIs(len: nat)
    ensures len <= WORD - 4096 ==> len <= PageUp(len) < len + 4096
    ensures WORD - 4096 < len < WORD ==> PageUp(len) == 0
    ensures PageUp(len) < WORD && PageUp(len) % 4096 == 0
  {
  }

  /** The end of `len` bytes from `a` on, as a 64-bit address. */
  function End(a: nat, len: nat): (e: nat) { (a + len) % WORD }

  lemma EndIs(a: nat, len: nat)
    requires a % 4096 == 0 && len % 4096 == 0
    ensures End(a, len) % 4096 == 0 && End(a, len) <= a + len
    ensures a + len < WORD ==> End(a, len) == a + len
    ensures a < WORD && len < WORD && a + len >= WORD ==> End(a, len) < a
  {
  }

  ghost predicate Aligned(v: Vma) { v.va % 4096 == 0 && v.size % 4096 == 0 && v.size > 0 }

  /** Page aligned, in order of address, and no two overlap. */
  ghost predicate Sorted(vs: seq<Vma>) {
    && (forall i :: 0 <= i < |vs| ==> Aligned(vs[i]))
    && (forall i, j :: 0 <= i < j < |vs| ==> vs[i].va + vs[i].size <= vs[j].va)
  }

  ghost predicate Covered(vs: seq<Vma>, u: int) { exists i :: 0 <= i < |vs| && vs[i].Has(u) }

  /** None of the `len` bytes from `x` on belongs to an area. */
  ghost predicate Free(vs: seq<Vma>, x: int, len: nat) { forall u: int :: x <= u < x + len ==> !Covered(vs, u) }

  // ---------------------------------------------------------------- the list

  function Insert(vs: seq<Vma>, k: nat, v: Vma): (r: seq<Vma>)
    requires k <= |vs|
    ensures |r| == |vs| + 1
  {
    vs[..k] + [v] + vs[k..]
  }

  function Remove(vs: seq<Vma>, k: nat): (r: seq<Vma>)
    requires k < |vs|
    ensures |r| == |vs| - 1
  {
    vs[..k] + vs[k + 1..]
  }

  lemma InsertAt(vs: seq<Vma>, k: nat, v: Vma, i: nat)
    requires k <= |vs| && i <= |vs|
    ensures Insert(vs, k, v)[i] == if i < k then vs[i] else if i == k then v else vs[i - 1]
  {
  }

  lemma RemoveAt(vs: seq<Vma>, k: nat, i: nat)
    requires k < |vs| && i < |vs| - 1
    ensures Remove(vs, k)[i] == vs[if i < k then i else i + 1]
  {
  }

  lemma InsertCovers(vs: seq<Vma>, k: nat, v: Vma, u: int)
    requires k <= |vs|
    ensures Covered(Insert(vs, k, v), u) <==> Covered(vs, u) || v.Has(u)
  {
    var r := Insert(vs, k, v);
    hide Insert;
    InsertAt(vs, k, v, k);
    if Covered(vs, u) {
      var i :| 0 <= i < |vs| && vs[i].Has(u);
      InsertAt(vs, k, v, if i < k then i else i + 1);
      assert r[if i < k then i else i + 1].Has(u);
    }
    if Covered(r, u) {
      var i :| 0 <= i < |r| && r[i].Has(u);
      InsertAt(vs, k, v, i);
    }
  }

  lemma RemoveCovers(vs: seq<Vma>, k: nat, u: int)
    requires Sorted(vs) && k < |vs|
    ensures Covered(Remove(vs, k), u) <==> Covered(vs, u) && !vs[k].Has(u)
  {
    var r := Remove(vs, k);
    hide Remove;
    if Covered(vs, u) && !vs[k].Has(u) {
      var i :| 0 <= i < |vs| && vs[i].Has(u);
      RemoveAt(vs, k, if i < k then i else i - 1);
      assert r[if i < k then i else i - 1].Has(u);
    }
    if Covered(r, u) {
      var i :| 0 <= i < |r| && r[i].Has(u);
      RemoveAt(vs, k, i);
      assert vs[if i < k then i else i + 1].Has(u);
    }
  }

  lemma RemoveSorted(vs: seq<Vma>, k: nat)
    requires Sorted(vs) && k < |vs|
    ensures Sorted(Remove(vs, k))
  {
    var r := Remove(vs, k);
    forall i | 0 <= i < |r| ensures r[i] == vs[if i < k then i else i + 1] {
      RemoveAt(vs, k, i);
    }
    hide Remove, Aligned;
  }

  /** The place of an area among those of lower and higher address. */
  ghost predicate Place(vs: seq<Vma>, k: nat, v: Vma) {
    && k <= |vs| && (forall i :: 0 <= i < k ==> vs[i].va < v.va) && (forall i :: k <= i < |vs| ==> v.va < vs[i].va)
  }

  lemma FreeApart(vs: seq<Vma>, v: Vma, i: nat)
    requires i < |vs| && Aligned(vs[i]) && Aligned(v) && Free(vs, v.va, v.size)
    ensures vs[i].va + vs[i].size <= v.va || v.va + v.size <= vs[i].va
  {
    var u := if vs[i].va >= v.va then vs[i].va else v.va;
    assert vs[i].Has(u) ==> Covered(vs, u);
  }

  lemma InsertSorted(vs: seq<Vma>, k: nat, v: Vma)
    requires Sorted(vs) && Aligned(v) && Place(vs, k, v) && Free(vs, v.va, v.size)
    ensures Sorted(Insert(vs, k, v))
  {
    var r := Insert(vs, k, v);
    forall i | 0 <= i < |r| ensures r[i] == if i < k then vs[i] else if i == k then v else vs[i - 1] {
      InsertAt(vs, k, v, i);
    }
    forall i | 0 <= i < |vs| ensures if i < k then vs[i].va + vs[i].size <= v.va else v.va + v.size <= vs[i].va {
      FreeApart(vs, v, i);
      assert Aligned(vs[i]);
    }
    hide Insert, Aligned, Free;
  }

  /** Areas hold whole pages. */
  lemma PageWhole(vs: seq<Vma>, a: nat, u: int)
    requires Sorted(vs) && a % 4096 == 0 && a <= u < a + 4096
    ensures Covered(vs, a) <==> Covered(vs, u)
  {
    forall i | 0 <= i < |vs| ensures vs[i].Has(a) <==> vs[i].Has(u) {
      assert Aligned(vs[i]);
      WholePages(vs[i].va, vs[i].size, a, u);
    }
  }

  lemma WholePages(va: nat, size: nat, a: nat, u: int)
    requires va % 4096 == 0 && size % 4096 == 0 && a % 4096 == 0 && a <= u < a + 4096
    ensures va <= a < va + size <==> va <= u < va + size
  {
    var x, y, z := va / 4096, size / 4096, a / 4096;
    assert va == 4096 * x && size == 4096 * y && a == 4096 * z;
  }

  // ---------------------------------------------------------------- the code

  class Process {
    var vmas: seq<Vma>
    var brk: nat
    var minbrk: nat

    ghost predicate Valid()
      reads this
    {
      Sorted(vmas)
    }

    constructor (brk: nat)
      ensures Valid() && vmas == [] && this.brk == brk && this.minbrk == brk
    {
      this.vmas, this.brk, this.minbrk := [], brk, brk;
    }

    /** `find_vma`: the index of the area that has the address, or -1. */
    method FindVma(a: nat) returns (k: int)
      requires Valid()
      ensures k == -1 <==> !Covered(vmas, a)
      ensures k != -1 ==> 0 <= k < |vmas| && vmas[k].Has(a)
    {
      var i := 0;
      while i < |vmas|
        invariant 0 <= i <= |vmas| && forall j :: 0 <= j < i ==> !vmas[j].Has(a)
      {
        if a < vmas[i].va {
          assert forall j :: i < j < |vmas| ==> vmas[i].va + vmas[i].size <= vmas[j].va;
          break;
        } else if vmas[i].Has(a) {
          return i;
        }
        i := i + 1;
      }
      k := -1;
    }

    /** `add_vma`: in order of address, unless an area begins at the same one. */
    method AddVma(v: Vma) returns (ok: bool, ghost k: nat)
      requires Valid()
      modifies `vmas
      ensures ok <==> forall i :: 0 <= i < |old(vmas)| ==> old(vmas)[i].va != v.va
      ensures if ok then Place(old(vmas), k, v) && vmas == Insert(old(vmas), k, v) else vmas == old(vmas)
    {
      var i := 0;
      k := 0;
      while i < |vmas|
        invariant 0 <= i <= |vmas| && vmas == old(vmas) && forall j :: 0 <= j < i ==> vmas[j].va < v.va
      {
        assert forall j :: i < j < |vmas| ==> vmas[i].va + vmas[i].size <= vmas[j].va;
        if v.va < vmas[i].va {
          vmas := vmas[..i] + [v] + vmas[i..];
          return true, i;
        } else if v.va == vmas[i].va {
          return false, 0;
        }
        i := i + 1;
      }
      vmas := vmas + [v];
      assert vmas == Insert(old(vmas), i, v);
      return true, i;
    }

    /** An area for bytes that no area has. */
    method AddFree(v: Vma)
      requires Valid() && Aligned(v) && Free(vmas, v.va, v.size)
      modifies `vmas
      ensures Valid() && (forall u: int :: Covered(vmas, u) <==> Covered(old(vmas), u) || v.Has(u))
      ensures exists k :: 0 <= k <= |old(vmas)| && vmas == Insert(old(vmas), k, v)
    {
      forall i | 0 <= i < |vmas| ensures vmas[i].va != v.va {
        FreeApart(vmas, v, i);
        assert Aligned(vmas[i]);
      }
      var ok, k := AddVma(v);
      InsertSorted(old(vmas), k, v);
      forall u: int ensures Covered(vmas, u) <==> Covered(old(vmas), u) || v.Has(u) {
        InsertCovers(old(vmas), k, v, u);
      }
    }

    /** The first of the pages from `from` on, below `to`, that an area has, and the index of the area; -1 if none. */
    method Scan(from: nat, to: nat) returns (k: int, ghost page: nat)
      requires Valid() && from % 4096 == 0 && to % 4096 == 0
      ensures k == -1 ==> forall u: int :: from <= u < to ==> !Covered(vmas, u)
      ensures k != -1 ==> 0 <= k < |vmas| && from <= page < to && page % 4096 == 0 && vmas[k].Has(page)
      ensures k != -1 ==> forall u: int :: from <= u < page ==> !Covered(vmas, u)
      ensures to <= from ==> k == -1
    {
      var a := from;
      page := 0;
      while a < to
        invariant from <= a && a % 4096 == 0 && (from <= to ==> a <= to)
        invariant forall u: int :: from <= u < a ==> !Covered(vmas, u)
      {
        k := FindVma(a);
        if k != -1 {
          page := a;
          return;
        }
        forall u: int | a <= u < a + 4096 ensures !Covered(vmas, u) {
          PageWhole(vmas, a, u);
        }
        a := a + 4096;
      }
      k := -1;
    }

    /** `_auto_find_map_area`: the lowest start in the map region for `len` free bytes, or -1 if there is none. Of a
        start from which they would reach past the last address, only the first page is free for certain. */
    method AutoFind(len: nat) returns (addr: int)
      requires Valid() && len > 0 && len % 4096 == 0
      ensures addr != -1 ==> MAP_LOW <= addr < MAP_TOP && addr % 4096 == 0
      ensures Answer(vmas, len, addr)
    {
      hide End, Answer, NoneBelow, Covered, Sorted;
      var a := MAP_LOW;
      NoneBelowLow(vmas, len);
      while a < MAP_TOP
        invariant MAP_LOW <= a && a % 4096 == 0 && NoneBelow(vmas, len, a)
        decreases MAP_TOP - a
      {
        EndIs(a, len);
        var k := FindVma(a);
        if k == -1 {
          var hit, page := Scan(a + 4096, End(a, len));
          if hit == -1 {
            FreeFound(vmas, a, len);
            return a;
          }
          SkipHit(vmas, a, len, hit, page);
          a := vmas[hit].va + vmas[hit].size;
        } else {
          SkipTaken(vmas, a, len, k);
          a := vmas[k].va + vmas[k].size;
        }
      }
      NoneLowest(vmas, len, a);
      addr := -1;
    }

    /** `find_map_area`: the page of the hint if that is in the map region and the hint is taken, else the lowest
        start. */
    method FindMapArea(start: nat, len: nat) returns (addr: int)
      requires Valid() && 0 < len < WORD && len % 4096 == 0
      ensures addr != -1 ==> MAP_LOW <= addr < MAP_TOP && addr % 4096 == 0
      ensures if HintTaken(vmas, start, len) then addr == PageDown(start) else Answer(vmas, len, addr)
    {
      hide End, Answer, Covered, Sorted;
      if MAP_LOW <= start < MAP_TOP {
        var hint := PageDown(start);
        EndIs(hint, len);
        var hit, page := Scan(hint, End(hint, len));
        if hit == -1 {
          return hint;
        }
        CoveredAt(vmas, hit, page);
      }
      addr := AutoFind(len);
    }

    /** `sys_mmap` with protection `prot`: the start of the new area, or -1. An area that would reach past the last
        address is entered as it is, unless another one begins at its start. The new area lies where nothing was, in a
        list of areas that do not overlap, just if its bytes were free; for a hint that is taken the caller can tell
        before the call. */
    method Mmap(start: nat, len: nat, prot: nat) returns (r: int)
      requires Valid()
      modifies `vmas
      ensures prot == 0 ==> r == start && vmas == old(vmas)
      ensures prot != 0 && PageUp(len) == 0 ==> r == -1 && vmas == old(vmas)
      ensures prot != 0 && PageUp(len) > 0 ==>
        if HintTaken(old(vmas), start, PageUp(len)) then r == PageDown(start) else Answer(old(vmas), PageUp(len), r)
      ensures r == -1 ==> vmas == old(vmas)
      ensures prot != 0 && r != -1 ==>
        MAP_LOW <= r && if r + PageUp(len) < WORD then Mapped(old(vmas), vmas, Vma(r, PageUp(len), Kind.Mmap))
                        else Entered(old(vmas), vmas, Vma(r, PageUp(len), Kind.Mmap))
      ensures prot != 0 && r != -1 ==> r % 4096 == 0
      ensures prot != 0 && r != -1 ==>
        (Mapped(old(vmas), vmas, Vma(r, PageUp(len), Kind.Mmap)) <==> Free(old(vmas), r, PageUp(len)))
      ensures prot != 0 && r != -1 ==> (Valid() <==> Free(old(vmas), r, PageUp(len)) || BeginsAt(old(vmas), r))
      ensures prot != 0 && PageUp(len) > 0 && HintTaken(old(vmas), start, PageUp(len)) ==>
        (Mapped(old(vmas), vmas, Vma(PageDown(start), PageUp(len), Kind.Mmap)) <==>
         Free(old(vmas), PageDown(start), PageUp(len)))
      ensures HeapOk(old(vmas), minbrk, brk) ==> HeapOk(vmas, minbrk, brk)
      ensures prot != 0 && 0 < len <= 0xFFFF_FFFF_FFFF_F000 && r != -1 ==>
        r + len + 4096 <= 0x1_0000_0000_0000_0000 || !BeginsAt(old(vmas), r) ==> Holds(vmas, r, len)
      ensures prot != 0 && 0 < len <= 0xFFFF_FFFF_FFFF_F000 && !HintTaken(old(vmas), start, PageUp(len)) ==>
        NoPlace(old(vmas), len, r)
      ensures prot != 0 && 0xFFFF_FFFF_FFFF_F000 < len < 0x1_0000_0000_0000_0000 ==> r == -1
    {
      hide HintTaken, Answer, Mapped, Entered, HeapOk, Holds, NoPlace, BeginsAt, PageUp;
      PageUpIs(len);
      var size := PageUp(len);
      if prot == 0 {
        return start;
      }
      if size == 0 {
        return -1;
      }
      r := FindMapArea(start, size);
      AnswerPlace(vmas, len, size, r);
      if r == -1 {
        return;
      }
      FreeThere(vmas, start, size, r);
      Enter(Vma(r, size, Kind.Mmap));
      RoomEntered(old(vmas), vmas, r, size, len);
    }

    /** The new area goes into the list. */
    method Enter(v: Vma)
      requires Valid() && Aligned(v) && (v.va + v.size < WORD ==> Free(vmas, v.va, v.size))
      modifies `vmas
      ensures if v.va + v.size < WORD then Mapped(old(vmas), vmas, v) else Entered(old(vmas), vmas, v)
      ensures Mapped(old(vmas), vmas, v) <==> Free(old(vmas), v.va, v.size)
      ensures Valid() <==> Free(old(vmas), v.va, v.size) || BeginsAt(old(vmas), v.va)
      ensures HeapOk(old(vmas), minbrk, brk) ==> HeapOk(vmas, minbrk, brk)
    {
      hide Sorted, Free, HeapOk, Insert;
      var ok, k := AddVma(v);
      EnteredExact(old(vmas), vmas, v);
      if ok {
        HeapInsert(old(vmas), k, v, minbrk, brk);
      } else {
        TakenStart(old(vmas), v);
      }
    }

    /** `sys_munmap`: the whole area that has the address goes, whatever the length. */
    method Munmap(start: nat) returns (ok: bool, ghost k: nat)
      requires Valid()
      modifies `vmas
      ensures Valid() && (ok <==> Covered(old(vmas), start))
      ensures !ok ==> vmas == old(vmas)
      ensures ok ==> k < |old(vmas)| && old(vmas)[k].Has(start) && vmas == Remove(old(vmas), k)
      ensures ok && HeapOk(old(vmas), minbrk, brk) ==>
                (HeapOk(vmas, minbrk, brk) <==> !(PageDown(minbrk) + 4096 <= old(vmas)[k].va < PageDown(brk) + 4096))
    {
      var i := FindVma(start);
      k := 0;
      if i == -1 {
        return false, 0;
      }
      RemoveSorted(vmas, i);
      HeapRemove(vmas, i, minbrk, brk);
      k := i;
      vmas := vmas[..i] + vmas[i + 1..];
      ok := true;
    }

    /** What a fault at an address that no area has does to the list (`do_page_fault`, for the stack). */
    method Fault(bad: nat)
      requires Valid()
      modifies `vmas
      ensures Valid()
      ensures Covered(old(vmas), bad) ==> vmas == old(vmas)
      ensures !Covered(old(vmas), bad) ==>
                exists k :: 0 <= k <= |old(vmas)| && vmas == Insert(old(vmas), k, Vma(PageDown(bad), 4096, Data))
      ensures HeapOk(old(vmas), minbrk, brk) ==> HeapOk(vmas, minbrk, brk)
    {
      var k := FindVma(bad);
      if k == -1 {
        forall u: int | PageDown(bad) <= u < PageDown(bad) + 4096 ensures !Covered(vmas, u) {
          PageWhole(vmas, PageDown(bad), u);
          PageWhole(vmas, PageDown(bad), bad);
        }
        AddFree(Vma(PageDown(bad), 4096, Data));
        ghost var at :| 0 <= at <= |old(vmas)| && vmas == Insert(old(vmas), at, Vma(PageDown(bad), 4096, Data));
        HeapInsert(old(vmas), at, Vma(PageDown(bad), 4096, Data), minbrk, brk);
      }
    }

    /** One round of the growing loop of `sys_brk`. */
    method GrowOne(a: nat, ghost vs: seq<Vma>, ghost lo: nat)
      requires Valid() && a % 4096 == 0 && lo <= a && Grown(vs, vmas, lo, a)
      modifies `vmas
      ensures Valid() && Grown(vs, vmas, lo, a + 4096)
    {
      hide Grown, Covered, Free, Sorted;
      ghost var was := vmas;
      var k := FindVma(a);
      PagesWhole(was, a);
      if k == -1 {
        AddFree(Vma(a, 4096, Brk));
        ghost var at :| 0 <= at <= |was| && vmas == Insert(was, at, Vma(a, 4096, Brk));
        GrownMore(vs, was, vmas, lo, a, at);
      } else {
        GrownAlready(vs, was, lo, a);
      }
    }

    /** The growing loop of `sys_brk`: an area of one page for each page that has none. */
    method Grow(lo: nat, hi: nat)
      requires Valid() && lo % 4096 == 0 && hi % 4096 == 0 && lo <= hi
      modifies `vmas
      ensures Valid() && Grown(old(vmas), vmas, lo, hi)
    {
      hide Grown, Covered, Sorted;
      var a := lo;
      GrownNone(vmas, lo);
      while a < hi
        invariant Valid() && lo <= a <= hi && a % 4096 == 0 && Grown(old(vmas), vmas, lo, a)
      {
        GrowOne(a, old(vmas), lo);
        a := a + 4096;
      }
    }

    /** One round of the shrinking loop of `sys_brk`. */
    method ShrinkOne(a: nat, ghost vs: seq<Vma>, ghost lo: nat, ghost hi: nat) returns (crash: bool)
      requires Valid() && Sorted(vs) && lo <= a < hi && lo % 4096 == 0 && a % 4096 == 0
      requires Gone(vs, vmas, lo, a) && Lone(vs, lo, a)
      modifies `vmas
      ensures Valid() && (crash ==> vmas == old(vmas) && !Covered(vmas, a) && !Lone(vs, lo, hi))
      ensures !crash ==> Gone(vs, vmas, lo, a + 4096) && Lone(vs, lo, a + 4096)
    {
      hide Covered, Sorted, Lone, Gone;
      var k := FindVma(a);
      if k == -1 {
        Stuck(vs, vmas, lo, a, hi);
        return true;
      }
      RemoveSorted(vmas, k);
      GoneMore(vs, vmas, lo, a, k);
      vmas := Remove(vmas, k);
      crash := false;
    }

    /** The shrinking loop of `sys_brk`: the whole area of each page goes; the kernel follows a null pointer at the
        first page that no area has any more, the page `stop`. */
    method Shrink(lo: nat, hi: nat) returns (crash: bool, ghost stop: nat)
      requires Valid() && lo % 4096 == 0 && hi % 4096 == 0 && lo <= hi
      modifies `vmas
      ensures Valid() && (!crash <==> Lone(old(vmas), lo, hi))
      ensures lo <= stop <= hi && (stop < hi <==> crash) && Gone(old(vmas), vmas, lo, stop)
      ensures crash ==> !Covered(vmas, stop)
    {
      hide Covered, Sorted, Lone, Gone;
      var a := lo;
      crash := false;
      GoneNone(vmas, lo);
      while a < hi
        invariant Valid() && lo <= a <= hi && a % 4096 == 0 && !crash
        invariant Gone(old(vmas), vmas, lo, a) && Lone(old(vmas), lo, a)
      {
        crash := ShrinkOne(a, old(vmas), lo, hi);
        if crash {
          return crash, a;
        }
        a := a + 4096;
      }
      stop := a;
    }

    /** `sys_brk`; `crash` if the kernel follows a null pointer, which it does just if the heap is shrunk over a page
        that no area has, or over two pages of one area. Growth by a multiple of 2^32 pages maps nothing. */
    method SysBrk(addr: nat) returns (r: int, crash: bool)
      requires Valid() && minbrk <= brk < WORD - 4096 && addr < WORD - 4096
      modifies this
      ensures Valid() && minbrk == old(minbrk)
      ensures !crash <==> addr > 0 && minbrk <= addr < old(brk) ==> Lone(old(vmas), Next(addr), Next(old(brk)))
      ensures addr == 0 ==> r == old(brk) && vmas == old(vmas) && brk == old(brk)
      ensures 0 < addr < minbrk ==> r == -1 && vmas == old(vmas) && brk == old(brk)
      ensures addr > 0 && addr >= minbrk && !crash ==> r == addr && brk == addr
      ensures addr >= old(brk) && addr > 0 ==>
                if PagesUp(old(brk), addr) % 0x1_0000_0000 != 0 then Grown(old(vmas), vmas, Next(old(brk)), Next(addr))
                else vmas == old(vmas)
      ensures 0 < addr && minbrk <= addr < old(brk) && !crash ==> Gone(old(vmas), vmas, Next(addr), Next(old(brk)))
      ensures 0 < addr && minbrk <= addr < old(brk) && HeapOk(old(vmas), minbrk, old(brk)) ==>
                !crash && Shrunk(old(vmas), vmas, Next(addr), Next(old(brk)))
      ensures HeapOk(old(vmas), minbrk, old(brk)) && addr > 0 && minbrk <= addr && Fits(old(vmas), old(brk), addr) ==>
                HeapOk(vmas, minbrk, brk)
    {
      hide Lone, Gone, Shrunk, Grown, HeapOk, Fits, Covered, Sorted;
      crash := false;
      if addr == 0 {
        return brk, false;
      }
      if addr < minbrk {
        return -1, false;
      }
      r := addr;
      PageSteps(brk, addr);
      if addr == brk {
        GrownNone(vmas, Next(brk));
        return;
      }
      if addr > brk {
        var lo, hi := PageDown(brk) + 4096, PageDown(addr + 4096);
        var pages := (hi / 4096 - PageDown(brk) / 4096 - 1) % 0x1_0000_0000;
        if pages != 0 {
          Grow(lo, hi);
          GrownHeap(old(vmas), vmas, minbrk, brk, addr);
        } else {
          SameHeap(vmas, minbrk, brk, addr);
        }
      } else {
        ghost var stop;
        crash, stop := Shrink(PageDown(addr + 4096), PageDown(brk + 4096));
        if HeapOk(old(vmas), minbrk, brk) {
          HeapLone(old(vmas), vmas, minbrk, brk, addr);
        }
        if crash {
          return;
        }
        ShrunkHeap(old(vmas), vmas, minbrk, brk, addr);
      }
      brk := addr;
    }
  }

  /** Growing the heap over free pages and shrinking it back: all is as before, unless the growth was a multiple of 2^32
      pages; then nothing was mapped, and shrinking over it ends at a null pointer. */
  method GrowShrink(p: Process, addr: nat) returns (crash: bool)
    requires p.Valid() && 0 < p.minbrk <= p.brk <= addr < WORD - 4096
      && Free(p.vmas, Next(p.brk), PageDown(addr) - PageDown(p.brk))
    modifies p
    ensures crash <==> PagesUp(old(p.brk), addr) > 0 && PagesUp(old(p.brk), addr) % 0x1_0000_0000 == 0
    ensures !crash ==> p.Valid() && p.vmas == old(p.vmas) && p.brk == old(p.brk)
  {
    hide Lone, Gone, Shrunk, Grown, HeapOk, Fits, Covered, Sorted, Free;
    ghost var vs := p.vmas;
    var before := p.brk;
    PageSteps(before, addr);
    var r, up := p.SysBrk(addr);
    ghost var ws := p.vmas;
    if addr == before {
      return false;
    }
    r, crash := p.SysBrk(before);
    var n := PagesUp(before, addr);
    if n == 0 {
      GoneNone(ws, Next(before));
      GoneSame(ws, p.vmas, Next(before));
    } else if n % 0x1_0000_0000 == 0 {
      FreeFirst(vs, Next(before), Next(addr));
      NotLone(ws, Next(before), Next(addr));
    } else {
      GrownPages(vs, ws, Next(before), Next(addr));
      PagesLone(ws, Next(before), Next(addr));
      if !crash {
        GrownGone(vs, ws, p.vmas, Next(before), Next(addr));
      }
    }
  }

  /** A program that unmaps a page of its heap and then shrinks the heap over it takes the kernel to a null pointer. */
  method HoleCrashes() returns (crash: bool)
    ensures crash
  {
    hide Lone, Gone, HeapOk, Fits, Shrunk, Sorted, Covered;
    var p := new Process(4096);
    var r, c := p.SysBrk(8192);
    assert Covered(p.vmas, 8192);
    ghost var vs := p.vmas;
    var ok, k := p.Munmap(8192);
    RemoveCovers(vs, k, 8192);
    r, crash := p.SysBrk(4096);
    NotLone(Remove(vs, k), 8192, 12288);
  }

  // ---------------------------------------------------------------- the heap

  /** An area of just the page at `a`. */
  ghost predicate HasPage(vs: seq<Vma>, a: nat) { exists i :: 0 <= i < |vs| && vs[i].va == a && vs[i].size == 4096 }

  /** Every page from `lo` on, below `hi`, has an area of its own. */
  ghost predicate Pages(vs: seq<Vma>, lo: nat, hi: nat) {
    forall a: nat :: lo <= a < hi && a % 4096 == 0 ==> HasPage(vs, a)
  }

  /** Every page after that of `minbrk`, up to that of `brk`, has an area of its own. */
  ghost predicate HeapOk(vs: seq<Vma>, minbrk: nat,
    brk: nat) { Pages(vs, PageDown(minbrk) + 4096, PageDown(brk) + 4096) }

  /** Areas of one page were added for just the pages from `lo` on, below `hi`, that had none. */
  ghost predicate Grown(vs: seq<Vma>, ws: seq<Vma>, lo: nat, hi: nat) {
    && (forall u: int :: Covered(ws, u) <==> Covered(vs, u) || lo <= u < hi)
    && (forall v :: v in vs ==> v in ws)
    && (forall v :: v in ws ==> v in vs || (v.size == 4096 && lo <= v.va < hi && v.kind == Brk))
  }

  /** If the heap grows, it does not grow by a multiple of 2^32 pages, and areas it grows into are single pages. */
  ghost predicate Fits(vs: seq<Vma>, brk: nat, addr: nat) {
    addr > brk ==>
      && ((PageDown(addr) - PageDown(brk)) / 4096 % 0x1_0000_0000 != 0 || PageDown(addr) == PageDown(brk))
      && forall v, u: int :: v in vs && v.Has(u) && PageDown(brk) + 4096 <= u < PageDown(addr) + 4096 ==> v.size == 4096
  }

  lemma PageSteps(brk: nat, addr: nat)
    ensures PageDown(addr + 4096) == PageDown(addr) + 4096 && PageDown(brk + 4096) == PageDown(brk) + 4096
    ensures brk <= addr ==> PageDown(brk) <= PageDown(addr)
    ensures addr <= brk ==> PageDown(addr) <= PageDown(brk)
    ensures (PageDown(addr) + 4096) / 4096 - PageDown(brk) / 4096 - 1 == (PageDown(addr) - PageDown(brk)) / 4096
  {
    var x, y := addr / 4096, brk / 4096;
    assert (addr + 4096) / 4096 == x + 1 && (brk + 4096) / 4096 == y + 1;
    assert PageDown(addr) == 4096 * x && PageDown(brk) == 4096 * y;
    assert (4096 * x - 4096 * y) / 4096 == x - y && (4096 * x + 4096) / 4096 == x + 1;
  }

  lemma InsertIn(vs: seq<Vma>, k: nat, v: Vma, x: Vma)
    requires k <= |vs|
    ensures x in Insert(vs, k, v) <==> x in vs || x == v
  {
    assert vs == vs[..k] + vs[k..];
  }

  lemma HasPageIn(vs: seq<Vma>, a: nat)
    ensures HasPage(vs, a) <==> exists v :: v in vs && v.va == a && v.size == 4096
  {
    if v :| v in vs && v.va == a && v.size == 4096 {
      var i :| 0 <= i < |vs| && vs[i] == v;
    }
  }

  /** One area more leaves every page its own. */
  lemma HeapInsert(vs: seq<Vma>, k: nat, v: Vma, minbrk: nat, brk: nat)
    requires k <= |vs|
    ensures HeapOk(vs, minbrk, brk) ==> HeapOk(Insert(vs, k, v), minbrk, brk)
  {
    var ws := Insert(vs, k, v);
    forall a: nat | HasPage(vs, a) ensures HasPage(ws, a) {
      HasPageIn(vs, a);
      HasPageIn(ws, a);
      var x :| x in vs && x.va == a && x.size == 4096;
      InsertIn(vs, k, v, x);
    }
    hide HasPage, Insert;
  }

  /** Without the area of a heap page the heap is not whole; any other may go. */
  lemma HeapRemove(vs: seq<Vma>, k: nat, minbrk: nat, brk: nat)
    requires Sorted(vs) && k < |vs|
    ensures HeapOk(vs, minbrk, brk) ==>
              (HeapOk(Remove(vs, k), minbrk, brk) <==> !(PageDown(minbrk) + 4096 <= vs[k].va < PageDown(brk) + 4096))
  {
    var ws, v := Remove(vs, k), vs[k];
    assert Aligned(v);
    RemoveOthers(vs, k);
    forall a: nat | HasPage(vs, a) && a != v.va ensures HasPage(ws, a) {
      HasPageIn(vs, a);
      HasPageIn(ws, a);
    }
    assert v.Has(v.va);
    RemoveCovers(vs, k, v.va);
    forall i | 0 <= i < |ws| ensures ws[i].va != v.va {
      RemoveAt(vs, k, i);
      assert Aligned(vs[if i < k then i else i + 1]);
    }
    assert !HasPage(ws, v.va);
    hide HasPage, Remove, Covered;
  }

  lemma GrownNone(vs: seq<Vma>, lo: nat)
    ensures Grown(vs, vs, lo, lo)
  {
  }

  lemma GrownMore(vs: seq<Vma>, was: seq<Vma>, ws: seq<Vma>, lo: nat, a: nat, at: nat)
    requires Grown(vs, was, lo, a) && lo <= a && at <= |was| && ws == Insert(was, at, Vma(a, 4096, Brk))
    ensures Grown(vs, ws, lo, a + 4096)
  {
    var v := Vma(a, 4096, Brk);
    forall u: int ensures Covered(ws, u) <==> Covered(was, u) || v.Has(u) {
      InsertCovers(was, at, v, u);
    }
    forall x ensures x in ws <==> x in was || x == v {
      InsertIn(was, at, v, x);
    }
    hide Covered, Insert;
  }

  lemma GrownAlready(vs: seq<Vma>, was: seq<Vma>, lo: nat, a: nat)
    requires Grown(vs, was, lo, a) && lo <= a && Covered(was, a) && forall u: int :: a <= u < a + 4096 ==>
      (Covered(was, a) <==> Covered(was, u))
    ensures Grown(vs, was, lo, a + 4096)
  {
    hide Covered;
  }

  lemma PagesWhole(vs: seq<Vma>, a: nat)
    requires Sorted(vs) && a % 4096 == 0
    ensures forall u: int :: a <= u < a + 4096 ==> (Covered(vs, a) <==> Covered(vs, u))
    ensures !Covered(vs, a) ==> Free(vs, a, 4096)
  {
    forall u: int | a <= u < a + 4096 ensures Covered(vs, a) <==> Covered(vs, u) {
      PageWhole(vs, a, u);
    }
    hide Covered;
  }

  /** Just the bytes from `lo` on, below `hi`, are not covered any more, and areas that begin elsewhere stayed. */
  ghost predicate Shrunk(vs: seq<Vma>, ws: seq<Vma>, lo: nat, hi: nat) {
    && (forall u: int :: Covered(ws, u) <==> Covered(vs, u) && !(lo <= u < hi))
    && (forall v :: v in vs && !(lo <= v.va < hi) ==> v in ws)
  }

  // ---------------------------------------------------------------- shrinking

  predicate IsPage(a: nat, lo: nat, hi: nat) { lo <= a < hi && a % 4096 == 0 }

  /** The area has one of the pages from `lo` on, below `hi`. */
  ghost predicate Touches(x: Vma, lo: nat, hi: nat) { exists a: nat :: IsPage(a, lo, hi) && x.Has(a) }

  /** Just the areas that have one of the pages went. */
  ghost predicate Gone(vs: seq<Vma>, ws: seq<Vma>, lo: nat, hi: nat) {
    forall x :: x in ws <==> x in vs && !Touches(x, lo, hi)
  }

  /** Every page from `lo` on, below `hi`, lies in an area that has no other of these pages. */
  ghost predicate Lone(vs: seq<Vma>, lo: nat, hi: nat) {
    && (forall a: nat :: IsPage(a, lo, hi) ==> Covered(vs, a))
    && (forall x, a: nat, b: nat :: x in vs && IsPage(a, lo, hi) && IsPage(b, lo, hi) && a != b ==>
      !(x.Has(a) && x.Has(b)))
  }

  lemma GoneNone(vs: seq<Vma>, lo: nat)
    ensures Gone(vs, vs, lo, lo) && Lone(vs, lo, lo)
  {
  }

  lemma AreaCovers(vs: seq<Vma>, u: int)
    ensures forall x :: x in vs && x.Has(u) ==> Covered(vs, u)
  {
    forall x | x in vs && x.Has(u) ensures Covered(vs, u) {
      var i :| 0 <= i < |vs| && vs[i] == x;
      assert vs[i].Has(u);
    }
  }

  lemma Distinct(vs: seq<Vma>, x: Vma, y: Vma, u: int)
    requires Sorted(vs) && x in vs && y in vs && x.Has(u) && y.Has(u)
    ensures x == y
  {
  }

  /** A page that no area has any more had none before, or shared one with an earlier page. */
  lemma Stuck(vs: seq<Vma>, was: seq<Vma>, lo: nat, a: nat, hi: nat)
    requires Gone(vs, was, lo, a) && !Covered(was, a) && IsPage(a, lo, hi)
    ensures !Lone(vs, lo, hi)
  {
    if Covered(vs, a) {
      var i :| 0 <= i < |vs| && vs[i].Has(a);
      AreaCovers(was, a);
      assert vs[i] in vs;
      var p: nat :| IsPage(p, lo, a) && vs[i].Has(p);
      assert IsPage(p, lo, hi);
    }
  }

  lemma TouchesMore(x: Vma, lo: nat, a: nat)
    requires lo <= a && a % 4096 == 0
    ensures Touches(x, lo, a + 4096) <==> Touches(x, lo, a) || x.Has(a)
  {
    forall p: nat ensures IsPage(p, lo, a + 4096) <==> IsPage(p, lo, a) || p == a {}
  }

  lemma RemoveIn(vs: seq<Vma>, k: nat, x: Vma)
    requires Sorted(vs) && k < |vs|
    ensures x in Remove(vs, k) <==> x in vs && x != vs[k]
  {
    assert vs == vs[..k] + [vs[k]] + vs[k + 1..];
    forall i | 0 <= i < |Remove(vs, k)| ensures Remove(vs, k)[i] != vs[k] {
      assert Aligned(vs[if i < k then i else i + 1]) && Aligned(vs[k]);
    }
  }

  /** One more page whose area goes. */
  lemma GoneMore(vs: seq<Vma>, was: seq<Vma>, lo: nat, a: nat, k: nat)
    requires Sorted(vs) && Sorted(was) && k < |was| && was[k].Has(a) && lo <= a && a % 4096 == 0
    requires Gone(vs, was, lo, a) && Lone(vs, lo, a)
    ensures Gone(vs, Remove(was, k), lo, a + 4096) && Lone(vs, lo, a + 4096)
  {
    hide Sorted, Covered, Remove, Touches;
    var y := was[k];
    assert y in was;
    forall x ensures x in Remove(was, k) <==> x in vs && !Touches(x, lo, a + 4096) {
      RemoveIn(was, k, x);
      TouchesMore(x, lo, a);
      if x in was && x.Has(a) {
        Distinct(was, x, y, a);
      }
    }
    LoneMore(vs, lo, a, y);
  }

  lemma LoneMore(vs: seq<Vma>, lo: nat, a: nat, y: Vma)
    requires Sorted(vs) && Lone(vs, lo, a) && lo <= a && a % 4096 == 0
    requires y in vs && y.Has(a) && !Touches(y, lo, a)
    ensures Lone(vs, lo, a + 4096)
  {
    hide Sorted;
    forall p: nat ensures IsPage(p, lo, a + 4096) <==> IsPage(p, lo, a) || p == a {}
    var j :| 0 <= j < |vs| && vs[j] == y;
    assert vs[j].Has(a);
    forall x | x in vs && x.Has(a) ensures x == y {
      Distinct(vs, x, y, a);
    }
  }

  /** The area of a page that has an area of its own. */
  lemma PageArea(vs: seq<Vma>, a: nat, x: Vma)
    requires Sorted(vs) && HasPage(vs, a) && x in vs && x.Has(a)
    ensures x.va == a && x.size == 4096
  {
    var i :| 0 <= i < |vs| && vs[i].va == a && vs[i].size == 4096;
    assert vs[i].Has(a);
    Distinct(vs, x, vs[i], a);
  }

  lemma PagesLone(vs: seq<Vma>, lo: nat, hi: nat)
    requires Sorted(vs) && Pages(vs, lo, hi)
    ensures Lone(vs, lo, hi)
  {
    hide Sorted, HasPage;
    forall a: nat | IsPage(a, lo, hi) ensures Covered(vs, a) {
      assert HasPage(vs, a);
      HasPageIn(vs, a);
      var x :| x in vs && x.va == a && x.size == 4096;
      var i :| 0 <= i < |vs| && vs[i] == x;
      assert vs[i].Has(a);
    }
    forall x, a: nat, b: nat | x in vs && IsPage(a, lo, hi) && IsPage(b, lo, hi) && a != b
      ensures !(x.Has(a) && x.Has(b)) {
      assert HasPage(vs, a);
      if x.Has(a) {
        PageArea(vs, a, x);
        NextPage(a, b);
      }
    }
  }

  lemma NextPage(a: nat, b: nat)
    requires a % 4096 == 0 && b % 4096 == 0 && a != b
    ensures !(a <= b < a + 4096)
  {
  }

  lemma PagesGone(vs: seq<Vma>, ws: seq<Vma>, lo: nat, hi: nat)
    requires Sorted(vs) && Pages(vs, lo, hi) && lo % 4096 == 0 && hi % 4096 == 0 && Gone(vs, ws, lo, hi)
    ensures Shrunk(vs, ws, lo, hi)
  {
    hide HasPage, Gone;
    forall x | x in vs ensures x in ws <==> !(lo <= x.va < hi) {
      PagesTouch(vs, lo, hi, x);
      GoneAt(vs, ws, lo, hi, x);
    }
    forall x | x in ws ensures x in vs {
      GoneAt(vs, ws, lo, hi, x);
    }
    forall u: int ensures Covered(ws, u) <==> Covered(vs, u) && !(lo <= u < hi) {
      PagesGoneAt(vs, ws, lo, hi, u);
    }
  }

  lemma PagesGoneAt(vs: seq<Vma>, ws: seq<Vma>, lo: nat, hi: nat, u: int)
    requires Sorted(vs) && Pages(vs, lo, hi) && lo % 4096 == 0 && hi % 4096 == 0 && Gone(vs, ws, lo, hi)
    ensures Covered(ws, u) <==> Covered(vs, u) && !(lo <= u < hi)
  {
    hide Sorted, HasPage, Pages, Gone, Touches;
    AreaCovers(vs, u);
    AreaCovers(ws, u);
    forall x | x in vs && x.Has(u) ensures x in ws <==> !(lo <= u < hi) {
      PagesTouch(vs, lo, hi, x);
      PageIn(x, lo, hi, u);
      GoneAt(vs, ws, lo, hi, x);
    }
    forall x | x in ws ensures x in vs {
      GoneAt(vs, ws, lo, hi, x);
    }
    if Covered(vs, u) {
      var i :| 0 <= i < |vs| && vs[i].Has(u);
      var y := vs[i];
      assert y in vs && y.Has(u);
      forall x | x in vs && x.Has(u) ensures x == y {
        Distinct(vs, x, y, u);
      }
      assert forall j :: 0 <= j < |ws| && ws[j].Has(u) ==> ws[j] in ws;
    }
    if Covered(ws, u) {
      var j :| 0 <= j < |ws| && ws[j].Has(u);
      assert ws[j] in ws;
    }
  }

  lemma GoneAt(vs: seq<Vma>, ws: seq<Vma>, lo: nat, hi: nat, x: Vma)
    requires Gone(vs, ws, lo, hi)
    ensures x in ws <==> x in vs && !Touches(x, lo, hi)
  {
  }

  /** Where every page has an area of its own, an area touches the pages just if it is one of these. */
  lemma PagesTouch(vs: seq<Vma>, lo: nat, hi: nat, x: Vma)
    requires Sorted(vs) && Pages(vs, lo, hi) && lo % 4096 == 0 && hi % 4096 == 0 && x in vs
    ensures Touches(x, lo, hi) <==> lo <= x.va < hi
    ensures Touches(x, lo, hi) ==> x.size == 4096
    ensures x.va % 4096 == 0
  {
    var i :| 0 <= i < |vs| && vs[i] == x;
    assert Aligned(vs[i]);
    if lo <= x.va < hi {
      assert IsPage(x.va, lo, hi) && x.Has(x.va);
    }
    if a: nat :| IsPage(a, lo, hi) && x.Has(a) {
      assert HasPage(vs, a);
      PageArea(vs, a, x);
    }
  }

  lemma PageIn(x: Vma, lo: nat, hi: nat, u: int)
    requires lo % 4096 == 0 && hi % 4096 == 0 && x.va % 4096 == 0 && x.Has(u)
    requires (Touches(x, lo, hi) <==> lo <= x.va < hi) && (Touches(x, lo, hi) ==> x.size == 4096)
    ensures lo <= u < hi <==> lo <= x.va < hi
  {
    if lo <= x.va < hi {
      assert x.va / 4096 < hi / 4096;
    } else if lo <= u < hi {
      var p := PageDown(u);
      assert lo / 4096 <= u / 4096 && x.va / 4096 <= u / 4096;
      assert IsPage(p, lo, hi) && x.Has(p);
    }
  }

  /** Areas in order are determined by which they are. */
  lemma {:induction false} SortedSame(vs: seq<Vma>, ws: seq<Vma>)
    requires Sorted(vs) && Sorted(ws) && forall x :: x in vs <==> x in ws
    ensures vs == ws
    decreases |vs|
  {
    assert vs == [] <==> ws == [] by {
      assert vs != [] ==> vs[0] in vs;
      assert ws != [] ==> ws[0] in ws;
    }
    if vs != [] {
      FirstSame(vs, ws);
      forall x ensures x in vs[1..] <==> x in ws[1..] {
        RemoveIn(vs, 0, x);
        RemoveIn(ws, 0, x);
        assert Remove(vs, 0) == vs[1..] && Remove(ws, 0) == ws[1..];
      }
      SortedSame(vs[1..], ws[1..]);
      assert vs == [vs[0]] + vs[1..] && ws == [ws[0]] + ws[1..];
    }
  }

  lemma FirstSame(vs: seq<Vma>, ws: seq<Vma>)
    requires Sorted(vs) && Sorted(ws) && |vs| > 0 && |ws| > 0 && vs[0] in ws && ws[0] in vs
    ensures vs[0] == ws[0]
  {
    FirstLowest(vs, ws[0]);
    FirstLowest(ws, vs[0]);
  }

  lemma FirstLowest(vs: seq<Vma>, x: Vma)
    requires Sorted(vs) && x in vs
    ensures vs[0] == x || vs[0].va < x.va
  {
    var i :| 0 <= i < |vs| && vs[i] == x;
    assert Aligned(vs[0]);
  }

  /** No page is lone that no area has. */
  lemma NotLone(vs: seq<Vma>, lo: nat, hi: nat)
    requires lo % 4096 == 0 && lo < hi && !Covered(vs, lo)
    ensures !Lone(vs, lo, hi)
  {
    assert IsPage(lo, lo, hi);
  }

  lemma FreeFirst(vs: seq<Vma>, lo: nat, hi: nat)
    requires lo < hi && Free(vs, lo, hi - lo)
    ensures !Covered(vs, lo)
  {
  }

  /** Pages that were free before the heap grew over them have areas of their own, and nothing but those. */
  lemma GrownPages(vs: seq<Vma>, ws: seq<Vma>, lo: nat, hi: nat)
    requires Sorted(ws) && Grown(vs, ws, lo, hi) && lo <= hi && Free(vs, lo, hi - lo)
    ensures Pages(ws, lo, hi)
  {
    forall a: nat | lo <= a < hi && a % 4096 == 0 ensures HasPage(ws, a) {
      assert Covered(ws, a) && !Covered(vs, a);
      AreaCovers(vs, a);
      OwnPage(ws, a);
    }
  }

  lemma GrownGone(vs: seq<Vma>, ws: seq<Vma>, xs: seq<Vma>, lo: nat, hi: nat)
    requires Sorted(vs) && Sorted(ws) && Sorted(xs) && lo <= hi && Free(vs, lo, hi - lo)
    requires Grown(vs, ws, lo, hi) && Gone(ws, xs, lo, hi)
    ensures xs == vs
  {
    forall x ensures x in xs <==> x in vs {
      GoneAt(ws, xs, lo, hi, x);
      if x in vs {
        FreeTouch(vs, lo, hi, x);
      } else if x in ws {
        var i :| 0 <= i < |ws| && ws[i] == x;
        assert Aligned(ws[i]);
        assert IsPage(x.va, lo, hi) && x.Has(x.va);
      }
    }
    SortedSame(xs, vs);
  }

  lemma FreeTouch(vs: seq<Vma>, lo: nat, hi: nat, x: Vma)
    requires lo <= hi && Free(vs, lo, hi - lo) && x in vs
    ensures !Touches(x, lo, hi)
  {
    var i :| 0 <= i < |vs| && vs[i] == x;
    forall a: nat | IsPage(a, lo, hi) ensures !x.Has(a) {
      assert !Covered(vs, a) && (vs[i].Has(a) ==> Covered(vs, a));
    }
  }

  lemma GoneSame(ws: seq<Vma>, xs: seq<Vma>, lo: nat)
    requires Sorted(ws) && Sorted(xs) && Gone(ws, xs, lo, lo)
    ensures xs == ws
  {
    SortedSame(xs, ws);
  }

  lemma RemoveOthers(vs: seq<Vma>, k: nat)
    requires k < |vs|
    ensures forall v :: v in vs && v != vs[k] ==> v in Remove(vs, k)
  {
    assert vs == vs[..k] + [vs[k]] + vs[k + 1..];
  }

  /** A page that is covered, where every area is a single page, has an area of its own. */
  lemma OwnPage(vs: seq<Vma>, a: nat)
    requires Sorted(vs) && Covered(vs, a) && a % 4096 == 0 && forall v :: v in vs && v.Has(a) ==> v.size == 4096
    ensures HasPage(vs, a)
  {
    var i :| 0 <= i < |vs| && vs[i].Has(a);
    assert vs[i] in vs && Aligned(vs[i]);
    WholePages(vs[i].va, vs[i].size, a, a);
    assert vs[i].va == a by { assert vs[i].va / 4096 * 4096 == vs[i].va && a / 4096 * 4096 == a; }
  }

  lemma GrownHeap(vs: seq<Vma>, ws: seq<Vma>, minbrk: nat, brk: nat, addr: nat)
    requires Sorted(ws) && brk < addr && Grown(vs, ws, PageDown(brk) + 4096, PageDown(addr) + 4096)
    ensures HeapOk(vs, minbrk, brk) && Fits(vs, brk, addr) ==> HeapOk(ws, minbrk, addr)
  {
    GrownHeapAny(vs, ws, minbrk, brk, addr);
  }

  lemma GrownHeapAny(vs: seq<Vma>, ws: seq<Vma>, minbrk: nat, brk: nat, addr: nat)
    requires Sorted(ws) && brk < addr && Grown(vs, ws, PageDown(brk) + 4096, PageDown(addr) + 4096)
    ensures HeapOk(vs, minbrk, brk)
            && (forall v, u: int :: v in vs && v.Has(u) && PageDown(brk) + 4096 <= u < PageDown(addr) + 4096 ==>
              v.size == 4096)
            ==> HeapOk(ws, minbrk, addr)
  {
    if HeapOk(vs, minbrk, brk)
      && forall v, u: int :: v in vs && v.Has(u) && PageDown(brk) + 4096 <= u < PageDown(addr) + 4096 ==> v.size == 4096
    {
      forall a: nat | PageDown(minbrk) + 4096 <= a < PageDown(addr) + 4096 && a % 4096 == 0 ensures HasPage(ws, a) {
        if a < PageDown(brk) + 4096 {
          assert HasPage(vs, a);
          HasPageIn(vs, a);
          HasPageIn(ws, a);
        } else {
          OwnPage(ws, a);
        }
      }
    }
  }

  /** Areas that the heap grew into must have been single pages. */
  lemma HeapSingles(vs: seq<Vma>, ws: seq<Vma>, minbrk: nat, brk: nat, addr: nat, v: Vma, u: int)
    requires Sorted(ws) && minbrk <= brk < addr && Grown(vs, ws, PageDown(brk) + 4096, PageDown(addr) + 4096)
      && HeapOk(ws, minbrk, addr)
    requires v in vs && v.Has(u) && PageDown(brk) + 4096 <= u < PageDown(addr) + 4096
    ensures v.size == 4096
  {
    PageSteps(minbrk, brk);
    var p := PageDown(u);
    assert p >= PageDown(brk) + 4096 by { PageSteps(brk, p); }
    assert HasPage(ws, p);
    var i :| 0 <= i < |ws| && ws[i].va == p && ws[i].size == 4096;
    var j :| 0 <= j < |ws| && ws[j] == v;
    assert ws[i].Has(u) && ws[j].Has(u);
    assert i == j;
  }

  /** The heap is all single pages after it grew just if it was before and grew into nothing but single pages. */
  lemma HeapExact(vs: seq<Vma>, ws: seq<Vma>, minbrk: nat, brk: nat, addr: nat)
    requires Sorted(ws) && minbrk <= brk < addr && Grown(vs, ws, PageDown(brk) + 4096, PageDown(addr) + 4096)
    ensures HeapOk(ws, minbrk, addr) <==>
              HeapOk(vs, minbrk, brk)
              && forall v, u: int :: v in vs && v.Has(u) && PageDown(brk) + 4096 <= u < PageDown(addr) + 4096 ==>
                v.size == 4096
  {
    if HeapOk(ws, minbrk, addr) {
      PageSteps(brk, addr);
      forall a: nat | PageDown(minbrk) + 4096 <= a < PageDown(brk) + 4096 && a % 4096 == 0 ensures HasPage(vs, a) {
        assert HasPage(ws, a);
        HasPageIn(vs, a);
        HasPageIn(ws, a);
      }
      forall v, u: int | v in vs && v.Has(u) && PageDown(brk) + 4096 <= u < PageDown(addr) + 4096
        ensures v.size == 4096 {
        HeapSingles(vs, ws, minbrk, brk, addr, v, u);
      }
    } else {
      hide HeapOk;
      GrownHeapAny(vs, ws, minbrk, brk, addr);
    }
  }

  lemma SameHeap(vs: seq<Vma>, minbrk: nat, brk: nat, addr: nat)
    requires brk < addr && (PageDown(addr) - PageDown(brk)) / 4096 % 0x1_0000_0000 == 0
    ensures HeapOk(vs, minbrk, brk) && Fits(vs, brk, addr) ==> HeapOk(vs, minbrk, addr)
  {
  }

  lemma HeapPages(vs: seq<Vma>, minbrk: nat, brk: nat, addr: nat)
    requires minbrk <= addr < brk
    ensures PageDown(minbrk) <= PageDown(addr) <= PageDown(brk)
    ensures HeapOk(vs, minbrk, brk) ==> Pages(vs, Next(addr), Next(brk))
  {
    PageSteps(minbrk, addr);
    PageSteps(brk, addr);
  }

  /** A whole heap is shrunk without a fault, by just the pages above the new break. */
  lemma HeapLone(vs: seq<Vma>, ws: seq<Vma>, minbrk: nat, brk: nat, addr: nat)
    requires Sorted(vs) && minbrk <= addr < brk && HeapOk(vs, minbrk, brk)
    ensures Lone(vs, Next(addr), Next(brk))
    ensures Gone(vs, ws, Next(addr), Next(brk)) ==> Shrunk(vs, ws, Next(addr), Next(brk))
  {
    hide Sorted, Lone, Gone, Shrunk, Pages;
    HeapPages(vs, minbrk, brk, addr);
    PagesLone(vs, Next(addr), Next(brk));
    if Gone(vs, ws, Next(addr), Next(brk)) {
      PagesGone(vs, ws, Next(addr), Next(brk));
    }
  }

  lemma ShrunkHeap(vs: seq<Vma>, ws: seq<Vma>, minbrk: nat, brk: nat, addr: nat)
    requires minbrk <= addr < brk && HeapOk(vs, minbrk, brk) ==>
      Shrunk(vs, ws, PageDown(addr) + 4096, PageDown(brk) + 4096)
    ensures minbrk <= addr < brk && HeapOk(vs, minbrk, brk) ==> HeapOk(ws, minbrk, addr)
  {
    if minbrk <= addr < brk && HeapOk(vs, minbrk, brk) {
      HeapPages(vs, minbrk, brk, addr);
      forall a: nat | PageDown(minbrk) + 4096 <= a < PageDown(addr) + 4096 && a % 4096 == 0 ensures HasPage(ws, a) {
        assert HasPage(vs, a);
        HasPageIn(vs, a);
        HasPageIn(ws, a);
      }
    }
  }

  /** `munmap` of the start that `mmap` gave puts the list back as it was. */
  lemma MmapMunmap(vs: seq<Vma>, k: nat, v: Vma, j: nat)
    requires k <= |vs| && Sorted(Insert(vs, k, v)) && Aligned(v) && j <= |vs| && Insert(vs, k, v)[j].Has(v.va)
    ensures Remove(Insert(vs, k, v), j) == vs
  {
    var ws := Insert(vs, k, v);
    assert ws[k] == v;
    assert j == k;
    assert Remove(ws, k) == vs[..k] + vs[k..];
  }

  /** A hint inside an area, with a length that reaches past the last address: the answer is that address, although it
      is in use, and the list then has two areas that overlap. */
  method UsedAgain() returns (p: Process, r: int)
    ensures r == MAP_LOW + 4096
    ensures p.vmas == [Vma(MAP_LOW, 8192, Kind.Mmap), Vma(MAP_LOW + 4096, WORD - 4096, Kind.Mmap)] && !Sorted(p.vmas)
  {
    hide Sorted, Free, HeapOk, Lowest, Insert, Place;
    var first, second := Vma(MAP_LOW, 8192, Kind.Mmap), Vma(MAP_LOW + 4096, WORD - 4096, Kind.Mmap);
    p := new Process(4096);
    NothingThere(MAP_LOW, 8192);
    r := p.Mmap(MAP_LOW, 8192, 1);
    OnlyThat(p.vmas, first);
    r := p.Mmap(MAP_LOW + 4096, WORD - 4096, 1);
    BehindThat(first, p.vmas, second);
    Overlap(p.vmas, 0, 1, MAP_LOW + 4096);
  }

  lemma NothingThere(x: int, len: nat)
    ensures Free([], x, len)
  {
  }

  lemma OnlyThat(ws: seq<Vma>, v: Vma)
    requires Mapped([], ws, v)
    ensures ws == [v]
  {
  }

  lemma LastPlace(v: Vma, k: nat, w: Vma)
    requires Place([v], k, w) && v.va < w.va
    ensures k == 1
  {
    var vs := [v];
    assert vs[0].va < w.va;
  }

  lemma BehindThat(v: Vma, ws: seq<Vma>, w: Vma)
    requires Entered([v], ws, w) && v.va < w.va
    ensures ws == [v, w]
  {
    hide Insert;
    var k: nat :| Place([v], k, w) && ws == Insert([v], k, w);
    LastPlace(v, k, w);
    InsertAt([v], 1, w, 0);
    InsertAt([v], 1, w, 1);
  }

  // ---------------------------------------------------------------- the search

  /** No start below `a` in the map region has `len` free bytes. */
  ghost predicate NoneBelow(vs: seq<Vma>, len: nat, a: int) { forall x: int :: MAP_LOW <= x < a ==> !Free(vs, x, len) }

  /** `addr` is the lowest start in the map region, aligned or not, with `len` free bytes; -1 if there is none. */
  ghost predicate Lowest(vs: seq<Vma>, len: nat, addr: int) {
    if addr == -1 then NoneBelow(vs, len, MAP_TOP)
      else MAP_LOW <= addr < MAP_TOP && Free(vs, addr, len) && NoneBelow(vs, len, addr)
  }

  /** What the search answers: the lowest start, if the bytes from there on end before the last address. */
  ghost predicate Answer(vs: seq<Vma>, len: nat, addr: int) {
    && (addr == -1 || addr + len < WORD ==> Lowest(vs, len, addr))
    && (addr != -1 ==> MAP_LOW <= addr < MAP_TOP && NoneBelow(vs, len, addr) && Free(vs, addr, 4096))
  }

  /** One area for a mapping begins at `r`, of as many pages as `len` bytes take, and all of these are covered. */
  ghost predicate Holds(vs: seq<Vma>, r: int, len: nat) {
    && (exists v :: v in vs && v.va == r && v.kind == Mmap && v.size % 4096 == 0 && len <= v.size < len + 4096)
    && forall u: int :: r <= u < r + len ==> Covered(vs, u)
  }

  /** No start in the map region, or none in front of `r`, has `len` free bytes. */
  ghost predicate NoPlace(vs: seq<Vma>, len: nat, r: int) {
    && (r != -1 ==> 0x20_0000_0000 <= r < 0x30_0000_0000)
    && forall x: int :: 0x20_0000_0000 <= x < (if r == -1 then 0x30_0000_0000 else r) ==> !Free(vs, x, len)
  }

  /** Where some bytes are free, all the pages that they are in are. */
  lemma FreePages(vs: seq<Vma>, x: nat, len: nat, size: nat)
    requires Sorted(vs) && Free(vs, x, len) && 0 < len && size < len + 4096 && size % 4096 == 0
    ensures Free(vs, PageDown(x), size)
  {
    hide Sorted, Covered;
    forall u: int | PageDown(x) <= u < PageDown(x) + size ensures !Covered(vs, u) {
      var a := PageDown(u);
      PageWhole(vs, a, u);
      if a < x {
        assert a == PageDown(x);
        PageWhole(vs, a, x);
      } else {
        assert a < x + len;
        PageWhole(vs, a, a);
      }
    }
  }

  lemma AnswerPlace(vs: seq<Vma>, len: nat, size: nat, r: int)
    requires Sorted(vs)
    ensures 0 < len <= size < len + 4096 && size % 4096 == 0 && Answer(vs, size, r) ==> NoPlace(vs, len, r)
  {
    hide Sorted, Free;
    if 0 < len <= size < len + 4096 && size % 4096 == 0 && Answer(vs, size, r) {
      forall x: nat | 0x20_0000_0000 <= x < 0x30_0000_0000 && Free(vs, x, len)
        ensures Free(vs, PageDown(x), size) && MAP_LOW <= PageDown(x) <= x
      {
        FreePages(vs, x, len, size);
      }
    }
  }

  lemma EnteredWhere(vs: seq<Vma>, ws: seq<Vma>, v: Vma) returns (k: nat)
    requires Mapped(vs, ws, v) || (Entered(vs, ws, v) && forall i :: 0 <= i < |vs| ==> vs[i].va != v.va)
    ensures k <= |vs| && ws == Insert(vs, k, v)
  {
    hide Sorted, Insert, Free;
    if Mapped(vs, ws, v) {
      var i :| 0 <= i <= |vs| && ws == Insert(vs, i, v);
      k := i;
    } else {
      k :| Place(vs, k, v) && ws == Insert(vs, k, v);
    }
  }

  /** The new area holds the bytes asked for. */
  lemma RoomEntered(vs: seq<Vma>, ws: seq<Vma>, r: nat, size: nat, len: nat)
    requires size % 4096 == 0
    requires if r + size < WORD then Mapped(vs, ws, Vma(r, size, Kind.Mmap))
      else Entered(vs, ws, Vma(r, size, Kind.Mmap))
    ensures len <= size < len + 4096 && (r + len + 4096 <= WORD || !BeginsAt(vs, r)) ==> Holds(ws, r, len)
  {
    hide Sorted, Insert, Place, Free;
    var v := Vma(r, size, Kind.Mmap);
    if len <= size < len + 4096 && (r + len + 4096 <= WORD || !BeginsAt(vs, r)) {
      assert r + size >= WORD ==> forall i :: 0 <= i < |vs| ==> vs[i].va != r;
      var k: nat := EnteredWhere(vs, ws, v);
      InsertAt(vs, k, v, k);
      assert ws[k] == v && v in ws;
      forall u: int | r <= u < r + len ensures Covered(ws, u) {
        InsertCovers(vs, k, v, u);
      }
    }
  }

  /** The hint is taken if its bytes are free, and also if they reach past the last address. */
  ghost predicate HintTaken(vs: seq<Vma>, start: nat, len: nat) {
    MAP_LOW <= start < MAP_TOP && (PageDown(start) + len >= WORD || Free(vs, PageDown(start), len))
  }

  /** One area more, where nothing was. */
  ghost predicate Mapped(vs: seq<Vma>, ws: seq<Vma>, v: Vma) {
    Sorted(ws) && Free(vs, v.va, v.size) && exists k :: 0 <= k <= |vs| && ws == Insert(vs, k, v)
  }

  /** One area more, in order of address, unless one begins there. */
  ghost predicate Entered(vs: seq<Vma>, ws: seq<Vma>, v: Vma) {
    if forall i :: 0 <= i < |vs| ==> vs[i].va != v.va then exists k: nat :: Place(vs, k, v) && ws == Insert(vs, k, v)
    else ws == vs
  }

  ghost predicate BeginsAt(vs: seq<Vma>, a: nat) { exists i :: 0 <= i < |vs| && vs[i].va == a }

  lemma TakenStart(vs: seq<Vma>, v: Vma)
    requires Sorted(vs) && Aligned(v) && BeginsAt(vs, v.va)
    ensures !Free(vs, v.va, v.size)
  {
    var i :| 0 <= i < |vs| && vs[i].va == v.va;
    assert Aligned(vs[i]);
    assert vs[i].Has(v.va);
    assert Covered(vs, v.va);
  }

  /** In its place in the list an area overlaps none just if its bytes were free. */
  lemma SortedExact(vs: seq<Vma>, k: nat, v: Vma)
    requires Sorted(vs) && Aligned(v) && Place(vs, k, v)
    ensures Sorted(Insert(vs, k, v)) <==> Free(vs, v.va, v.size)
  {
    if Free(vs, v.va, v.size) {
      InsertSorted(vs, k, v);
    } else {
      var u: int :| v.va <= u < v.va + v.size && Covered(vs, u);
      var i :| 0 <= i < |vs| && vs[i].Has(u);
      hide Sorted, Free, Covered, Insert, Place;
      var j := if i < k then i else i + 1;
      InsertAt(vs, k, v, k);
      InsertAt(vs, k, v, j);
      Overlap(Insert(vs, k, v), k, j, u);
    }
  }

  lemma Overlap(vs: seq<Vma>, i: nat, j: nat, u: int)
    requires i < |vs| && j < |vs| && i != j && vs[i].Has(u) && vs[j].Has(u)
    ensures !Sorted(vs)
  {
  }

  /** The new area lies where nothing was, and the list has no areas that overlap, just if its bytes were free. */
  lemma EnteredExact(vs: seq<Vma>, ws: seq<Vma>, v: Vma)
    requires Sorted(vs) && Aligned(v) && Entered(vs, ws, v)
    ensures Mapped(vs, ws, v) <==> Free(vs, v.va, v.size)
    ensures Sorted(ws) <==> Free(vs, v.va, v.size) || BeginsAt(vs, v.va)
  {
    hide Sorted, Insert, Free;
    if BeginsAt(vs, v.va) {
      TakenStart(vs, v);
    } else {
      var k: nat :| Place(vs, k, v) && ws == Insert(vs, k, v);
      SortedExact(vs, k, v);
    }
  }

  lemma FreeThere(vs: seq<Vma>, start: nat, len: nat, r: nat)
    requires if HintTaken(vs, start, len) then r == PageDown(start) else Answer(vs, len, r)
    ensures r + len < WORD ==> Free(vs, r, len)
  {
    hide NoneBelow, Free;
  }

  lemma CoveredAt(vs: seq<Vma>, k: nat, u: int)
    requires k < |vs| && vs[k].Has(u)
    ensures Covered(vs, u)
  {
  }

  lemma NoneBelowLow(vs: seq<Vma>, len: nat)
    ensures NoneBelow(vs, len, MAP_LOW)
  {
  }

  lemma NoneLowest(vs: seq<Vma>, len: nat, a: int)
    requires NoneBelow(vs, len, a) && a >= MAP_TOP
    ensures Answer(vs, len, -1)
  {
  }

  lemma FreeFound(vs: seq<Vma>, a: nat, len: nat)
    requires Sorted(vs) && a % 4096 == 0 && MAP_LOW <= a < MAP_TOP && len > 0 && len % 4096 == 0 && !Covered(vs, a)
      && NoneBelow(vs, len, a)
    requires forall u: int :: a + 4096 <= u < End(a, len) ==> !Covered(vs, u)
    ensures Answer(vs, len, a)
  {
    EndIs(a, len);
    forall u: int | a <= u < a + 4096 ensures !Covered(vs, u) {
      PageWhole(vs, a, u);
    }
    hide Covered, Sorted, NoneBelow;
  }

  /** The search may go on behind an area that has one of the pages it needs. */
  lemma SkipHit(vs: seq<Vma>, a: nat, len: nat, k: nat, page: nat)
    requires Sorted(vs) && a % 4096 == 0 && len % 4096 == 0 && MAP_LOW <= a < MAP_TOP && k < |vs| && !Covered(vs, a)
      && NoneBelow(vs, len, a)
    requires a + 4096 <= page < End(a, len) && page % 4096 == 0 && vs[k].Has(page)
    requires forall u: int :: a + 4096 <= u < page ==> !Covered(vs, u)
    ensures NoneBelow(vs, len, vs[k].va + vs[k].size) && vs[k].va + vs[k].size > a
      && (vs[k].va + vs[k].size) % 4096 == 0
  {
    EndIs(a, len);
    assert Aligned(vs[k]);
    PageWhole(vs, page - 4096, page - 1);
    assert !Covered(vs, page - 1);
    assert !vs[k].Has(page - 1);
    forall x: int | a <= x < vs[k].va + vs[k].size ensures !Free(vs, x, len) {
      var u := if x >= page then x else page;
      assert vs[k].Has(u);
      assert Covered(vs, u);
    }
    hide Free, Covered;
  }

  lemma SkipTaken(vs: seq<Vma>, a: nat, len: nat, k: nat)
    requires Sorted(vs) && a % 4096 == 0 && len > 0 && k < |vs| && vs[k].Has(a) && NoneBelow(vs, len, a)
    ensures NoneBelow(vs, len, vs[k].va + vs[k].size) && vs[k].va + vs[k].size > a
      && (vs[k].va + vs[k].size) % 4096 == 0
  {
    assert Aligned(vs[k]);
    forall x: int | a <= x < vs[k].va + vs[k].size ensures !Free(vs, x, len) {
      assert vs[k].Has(x);
      assert Covered(vs, x);
    }
    hide Free, Covered;
  }
}
