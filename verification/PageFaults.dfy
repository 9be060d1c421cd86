/** Page faults on the page table and the list of areas: `do_page_fault` of vmm.c for programs, stack and heap. What a
    user address leads to, through the table, is the byte of the program loaded at once. */
module PageFaults {
  import opened Bytes
  import opened PageAddress
  import opened DemandPages
  import PagePool
  import T = PageTable
  import L = VmaList

  /** The contents of the pages of the pool that are no tables. */
  type Frames = map<nat, seq<byte>>

  // ---------------------------------------------------------------- the invariant

  /** Area `v` was set up for the segment. */
  ghost predicate For(v: L.Vma, s: Segment) { v.kind == L.Prog && v.va == AreaOf(s).va && v.size == AreaOf(s).size }

  /** The program areas of the list are those of the segments. */
  ghost predicate Listed(vmas: seq<L.Vma>, segs: seq<Segment>) {
    && (forall i :: 0 <= i < |segs| && AreaOf(segs[i]).size > 0 ==> exists v :: v in vmas && For(v, segs[i]))
    && (forall v :: v in vmas && v.kind == L.Prog ==> exists i :: 0 <= i < |segs| && For(v, segs[i]))
  }

  /** If page number `v` is mapped, it leads to a page in use that is no table and holds the page of the program. */
  ghost predicate Backed(s: T.Space, pages: seq<PagePool.Page>, data: Frames, file: seq<byte>, segs: seq<Segment>,
    v: nat)
    requires T.Tree(s) && T.I0(v) < 256
  {
    var e := T.Lookup(s, v);
    T.Valid(e) ==>
      && 0 <= T.Frame(e) < |pages| && T.Frame(e) in data && T.Frame(e) !in s.role
      && pages[T.Frame(e)].flag == PagePool.Used && data[T.Frame(e)] == ProgramPage(file, segs, 4096 * v)
  }

  /** No two addresses lead to the same page. */
  ghost predicate Apart(s: T.Space)
    requires T.Tree(s)
  {
    forall v: nat, w: nat :: T.I0(v) < 256 && T.I0(w) < 256 && v != w ==> Elsewhere(s, v, w)
  }

  ghost predicate Elsewhere(s: T.Space, v: nat, w: nat)
    requires T.Tree(s) && T.I0(v) < 256 && T.I0(w) < 256
  {
    Mapped(s, v) && Mapped(s, w) ==> T.Frame(T.Lookup(s, v)) != T.Frame(T.Lookup(s, w))
  }

  ghost predicate Mapped(s: T.Space, v: nat)
    requires T.Tree(s) && T.I0(v) < 256
  {
    T.Valid(T.Lookup(s, v))
  }

  /** Mapped with these bits. */
  ghost predicate MappedWith(s: T.Space, v: nat, flags: nat)
    requires T.Tree(s) && T.I0(v) < 256
  {
    Mapped(s, v) && T.Lookup(s, v) % 1024 == if flags % 2 == 0 then flags + 1 else flags
  }

  /** The list is in order and has the areas of the program; every page that is mapped has a frame of its own, in which
      the page of the program is. */
  ghost predicate Runs(space: T.AddressSpace, proc: L.Process, data: Frames, file: seq<byte>, segs: seq<Segment>)
    reads space, space.pool, space.pool.pages, proc
  {
    && space.Ok() && proc.Valid() && Listed(proc.vmas, segs) && Loadable(segs) && Apart(space.Now())
    && forall v: nat :: T.I0(v) < 256 ==> Backed(space.Now(), space.pool.pages[..], data, file, segs, v)
  }

  /** What the program sees at a user address that is mapped: the byte of the program loaded at once. */
  lemma SeesProgram(space: T.AddressSpace, proc: L.Process, data: Frames, file: seq<byte>, segs: seq<Segment>, u: nat)
    requires Runs(space, proc, data, file, segs) && u < 0x4000000000 && T.Translate(space.Now(), u) != 0
    ensures var q := T.Translate(space.Now(), u) / 4096 - T.BASE;
            0 <= q && q in data && |data[q]| == 4096 && IsLoaded(file, segs, u, data[q][u % 4096])
    ensures T.Translate(space.Now(), u) % 4096 == u % 4096
  {
    hide T.Tree, T.Lookup, PagePool.Pool.Valid, Listed, Loadable, ProgramByte;
    hide IsLoaded;
    ByteIsLoaded(file, segs, u);
    var v := u / 4096;
    assert T.I0(v) < 256;
    assert Backed(space.Now(), space.pool.pages[..], data, file, segs, v);
  }

  // ---------------------------------------------------------------- the areas

  /** The list has a program area at an address just if a segment has it. */
  lemma AreaFound(vmas: seq<L.Vma>, segs: seq<Segment>, bad: nat, k: int)
    requires L.Sorted(vmas) && Listed(vmas, segs)
    requires if k == -1 then !L.Covered(vmas, bad) else 0 <= k < |vmas| && vmas[k].Has(bad)
    ensures k != -1 && vmas[k].kind == L.Prog <==> AreaAt(segs, bad) < |segs|
  {
    hide AreaOf;
    var i := AreaAt(segs, bad);
    if i < |segs| {
      var v :| v in vmas && For(v, segs[i]);
      var j :| 0 <= j < |vmas| && vmas[j] == v;
      assert vmas[j].Has(bad);
      assert L.Covered(vmas, bad);
      SameArea(vmas, j, k, bad);
    }
    if k != -1 && vmas[k].kind == L.Prog {
      var j :| 0 <= j < |segs| && For(vmas[k], segs[j]);
      assert Holds(segs[j], bad);
    }
  }

  lemma SameArea(vmas: seq<L.Vma>, j: nat, k: int, u: int)
    requires L.Sorted(vmas) && j < |vmas| && 0 <= k < |vmas| && vmas[j].Has(u) && vmas[k].Has(u)
    ensures j == k
  {
  }

  lemma ListedMore(vmas: seq<L.Vma>, segs: seq<Segment>, k: nat, v: L.Vma)
    requires Listed(vmas, segs) && k <= |vmas| && v.kind != L.Prog
    ensures Listed(L.Insert(vmas, k, v), segs)
  {
    hide AreaOf;
    var ws := L.Insert(vmas, k, v);
    assert vmas == vmas[..k] + vmas[k..];
    forall x: L.Vma ensures x in ws <==> x in vmas || x == v {
    }
    hide L.Insert;
  }

  // ---------------------------------------------------------------- the page

  /** The page of a program area, filled over what the frame holds: zeros, or the page of the program. */
  method Refill(file: seq<byte>, segs: seq<Segment>, bad: nat, start: seq<byte>) returns (page: seq<byte>)
    requires Loadable(segs) && AreaAt(segs, bad) < |segs|
    requires start == Zeros() || start == ProgramPage(file, segs, PageDown(bad))
    ensures page == ProgramPage(file, segs, PageDown(bad))
  {
    hide PageDown, ProgramPage, Loadable;
    PageOfProgram(file, segs, bad);
    var s := segs[AreaAt(segs, bad)];
    assert |start| == 4096;
    var mem := new byte[4096](i requires 0 <= i < 4096 => start[i]);
    Fill(file, AreaOf(s), bad, mem);
    page := mem[..];
    forall k | 0 <= k < 4096 ensures page[k] == ImagePage(file, s, PageDown(bad))[k] {
      assert ImagePage(file, s, PageDown(bad))[k] == Image(file, s, PageDown(bad) + k);
    }
  }

  // ---------------------------------------------------------------- the fault

  /** Frame `p` is ready for page number `v0`: in use, no table, and it holds the page of the program; all that is
      mapped is backed, and no other page number leads there. */
  ghost predicate Prepared(s: T.Space, pages: seq<PagePool.Page>, data: Frames, file: seq<byte>, segs: seq<Segment>,
                           v0: nat, p: nat)
    requires T.Tree(s)
  {
    && p < |pages| && pages[p].flag == PagePool.Used && p !in s.role && p in data
    && data[p] == ProgramPage(file, segs, 4096 * v0) && Alone(s, v0, p)
    && forall v: nat :: T.I0(v) < 256 ==> Backed(s, pages, data, file, segs, v)
  }

  ghost predicate Alone(s: T.Space, v0: nat, p: nat)
    requires T.Tree(s)
  {
    forall v: nat :: T.I0(v) < 256 && v != v0 && Mapped(s, v) ==> T.Frame(T.Lookup(s, v)) != p
  }

  /** A frame that was free holds the page. */
  lemma PreparedFresh(s: T.Space, pages: seq<PagePool.Page>, pages': seq<PagePool.Page>, data: Frames, file: seq<byte>,
                      segs: seq<Segment>, v0: nat, p: nat)
    requires T.Tree(s) && |pages'| == |pages| && p < |pages| && pages[p].flag == PagePool.Free
    requires forall q: nat :: q < |pages| ==> pages'[q].flag == if q == p then PagePool.Used else pages[q].flag
    requires forall q :: q in s.role ==> q < |pages| && pages[q].flag == PagePool.Used
    requires forall v: nat :: T.I0(v) < 256 ==> Backed(s, pages, data, file, segs, v)
    ensures Alone(s, v0, p)
    ensures Prepared(s, pages', data[p := ProgramPage(file, segs, 4096 * v0)], file, segs, v0, p)
  {
    hide T.Tree, T.Lookup, T.I0, ProgramPage;
    forall v: nat | T.I0(v) < 256 && v != v0 && Mapped(s, v) ensures T.Frame(T.Lookup(s, v)) != p {
      assert Backed(s, pages, data, file, segs, v);
    }
    forall v: nat | T.I0(v) < 256
      ensures Backed(s, pages', data[p := ProgramPage(file, segs, 4096 * v0)], file, segs, v)
    {
      assert Backed(s, pages, data, file, segs, v);
    }
  }

  /** The frame that page number `v0` leads to already. */
  lemma PreparedOld(s: T.Space, pages: seq<PagePool.Page>, data: Frames, file: seq<byte>, segs: seq<Segment>, v0: nat)
    requires T.Tree(s) && T.I0(v0) < 256 && Mapped(s, v0) && Apart(s)
    requires forall v: nat :: T.I0(v) < 256 ==> Backed(s, pages, data, file, segs, v)
    ensures var p := T.Frame(T.Lookup(s, v0));
            p >= 0 && p in data && data[p] == ProgramPage(file, segs, 4096 * v0)
            && Prepared(s, pages, data, file, segs, v0, p)
  {
    hide T.Tree, T.Lookup, T.I0, ProgramPage;
    assert Backed(s, pages, data, file, segs, v0);
    forall v: nat | T.I0(v) < 256 && v != v0 && Mapped(s, v)
      ensures T.Frame(T.Lookup(s, v)) != T.Frame(T.Lookup(s, v0))
    {
      assert Elsewhere(s, v, v0);
    }
  }

  lemma FrameOf(p: nat, flags: nat)
    requires flags < 1024
    ensures T.Valid(T.Leaf((T.BASE + p) * 4096, flags)) && T.Frame(T.Leaf((T.BASE + p) * 4096, flags)) == p
    ensures T.Leaf((T.BASE + p) * 4096, flags) % 1024 == if flags % 2 == 0 then flags + 1 else flags
  {
    T.LeafAddress((T.BASE + p) * 4096, flags);
    T.LeafBits((T.BASE + p) * 4096, flags);
    T.Packed(T.BASE + p, if flags % 2 == 0 then flags + 1 else flags);
  }

  /** After `mappages` for one page, whether or not it had the tables it needs. */
  lemma Installed(s: T.Space, pages: seq<PagePool.Page>, t: T.Space, pages': seq<PagePool.Page>, data: Frames,
                  file: seq<byte>, segs: seq<Segment>, v0: nat, p: nat, n: nat, flags: nat)
    requires T.Tree(s) && T.Tree(t) && T.I0(v0) < 256 && Prepared(s, pages, data, file, segs, v0, p) && n <= 1
    requires T.Obtains(pages, pages', s, t) && T.Maps(s, t, v0, n, (T.BASE + p) * 4096, flags) && flags < 1024
    ensures forall v: nat :: T.I0(v) < 256 ==> Backed(t, pages', data, file, segs, v)
    ensures forall v: nat :: T.I0(v) < 256 && !(n == 1 && v == v0) ==> T.Lookup(t, v) == T.Lookup(s, v)
    ensures n == 1 ==> MappedWith(t, v0, flags)
    ensures Alone(s, v0, p)
  {
    hide T.Tree, T.Lookup, T.I0, ProgramPage, T.Leaf, T.Frame, T.Valid, T.Address;
    FrameOf(p, flags);
    forall v: nat | T.I0(v) < 256 ensures Backed(t, pages', data, file, segs, v) {
      assert Backed(s, pages, data, file, segs, v);
    }
  }

  lemma InstalledApart(s: T.Space, t: T.Space, v0: nat, p: nat, n: nat, flags: nat)
    requires T.Tree(s) && T.Tree(t) && T.I0(v0) < 256 && Apart(s) && Alone(s, v0, p) && n <= 1
    requires T.Maps(s, t, v0, n, (T.BASE + p) * 4096, flags) && flags < 1024
    ensures Apart(t)
  {
    hide T.Tree, T.Lookup, T.I0, T.Leaf, T.Frame, T.Valid, T.Address;
    FrameOf(p, flags);
    forall v: nat, w: nat | T.I0(v) < 256 && T.I0(w) < 256 && v != w ensures Elsewhere(t, v, w) {
      assert Elsewhere(s, v, w);
    }
  }

  /** The list has an area of one page more, at the address. */
  ghost predicate Stacked(vs: seq<L.Vma>, ws: seq<L.Vma>, bad: nat) {
    exists k :: 0 <= k <= |vs| && ws == L.Insert(vs, k, L.Vma(PageDown(bad), 4096, L.Data))
  }

  /** Frames in use, whoever uses them, hold what they held. */
  ghost predicate InUseKept(pages: seq<PagePool.Page>, data: Frames, data': Frames) {
    forall q: nat :: q in data && q < |pages| && pages[q].flag == PagePool.Used ==> q in data' && data'[q] == data[q]
  }

  lemma AllKept(pages: seq<PagePool.Page>, data: Frames)
    ensures InUseKept(pages, data, data)
  {
  }

  lemma FreeIsOther(pages: seq<PagePool.Page>, data: Frames, p: nat, page: seq<byte>)
    requires p < |pages| && pages[p].flag == PagePool.Free
    ensures InUseKept(pages, data, data[p := page])
  {
  }

  datatype Fate = Handled | NoPage | NoTable

  /** `do_page_fault`, for program areas, heap, anonymous mappings and the stack, on a page that is mapped or not.
      Without a page for the data the kernel goes on with a null pointer (`NoPage`); without one for a table the page is
      not mapped (`NoTable`). */
  method DoFault(space: T.AddressSpace, proc: L.Process, data: Frames, file: seq<byte>, segs: seq<Segment>, flags: nat,
                 bad: nat)
      returns (res: Fate, data': Frames)
    requires Runs(space, proc, data, file, segs) && bad < 0x4000000000 && flags < 1024
    modifies space, space.pool, space.pool.pages, proc`vmas
    ensures Runs(space, proc, data', file, segs)
    ensures forall v: nat :: T.I0(v) < 256 && !(res == Handled && v == bad / 4096) ==>
              T.Lookup(space.Now(), v) == T.Lookup(old(space.Now()), v)
    ensures res == Handled ==> MappedWith(space.Now(), bad / 4096, flags)
    ensures res == NoPage ==> !Mapped(old(space.Now()), bad / 4096) && old(space.pool.Blocks()) == []
    ensures res != Handled ==> space.pool.Blocks() == []
    ensures L.Covered(old(proc.vmas), bad) || res == NoPage ==> proc.vmas == old(proc.vmas)
    ensures !L.Covered(old(proc.vmas), bad) && res != NoPage ==> Stacked(old(proc.vmas), proc.vmas, bad)
    ensures InUseKept(old(space.pool.pages[..]), data, data')
  {
    hide *;
    ghost var v0 := bad / 4096;
    PageNumber(bad);
    RunFacts(space, proc, data, file, segs);
    var pa := space.Va2pa(PageDown(bad));
    TranslateIs(space.Now(), bad);
    var p, start := GetFrame(space, data, file, segs, pa, v0);
    data' := data;
    if p == -1 {
      Resumes(space, proc, data, file, segs);
      AllKept(space.pool.pages[..], data);
      return NoPage, data';
    }
    var page := Bring(proc, file, segs, bad, start);
    data' := data[p as nat := page];
    var ok := Install(space, data', file, segs, flags, bad, p);
    Resumes(space, proc, data', file, segs);
    res := if ok then Handled else NoTable;
  }

  lemma RunFacts(space: T.AddressSpace, proc: L.Process, data: Frames, file: seq<byte>, segs: seq<Segment>)
    requires Runs(space, proc, data, file, segs)
    ensures space.Ok() && proc.Valid() && Listed(proc.vmas, segs) && Loadable(segs) && T.Tree(space.Now())
    ensures Apart(space.Now())
    ensures forall v: nat :: T.I0(v) < 256 ==> Backed(space.Now(), space.pool.pages[..], data, file, segs, v)
  {
  }

  lemma Resumes(space: T.AddressSpace, proc: L.Process, data: Frames, file: seq<byte>, segs: seq<Segment>)
    requires space.Ok() && proc.Valid() && Listed(proc.vmas, segs) && Loadable(segs) && T.Tree(space.Now())
    requires Apart(space.Now())
    requires forall v: nat :: T.I0(v) < 256 ==> Backed(space.Now(), space.pool.pages[..], data, file, segs, v)
    ensures Runs(space, proc, data, file, segs)
  {
  }

  /** The frame of the page: the one that it is mapped to, or a new one full of zeros; -1 if there is none. */
  method GetFrame(space: T.AddressSpace, data: Frames, ghost file: seq<byte>, ghost segs: seq<Segment>, pa: int,
                  ghost v0: nat) returns (p: int, start: seq<byte>)
    requires space.Ok() && T.Tree(space.Now()) && T.I0(v0) < 256 && Apart(space.Now())
    requires pa == if Mapped(space.Now(), v0) then T.Address(T.Lookup(space.Now(), v0)) else 0
    requires forall v: nat :: T.I0(v) < 256 ==> Backed(space.Now(), space.pool.pages[..], data, file, segs, v)
    modifies space.pool, space.pool.pages
    ensures space.Ok() && space.Now() == old(space.Now()) && p >= -1
    ensures p == -1 ==> space.pool.pages[..] == old(space.pool.pages[..])
    ensures p == -1 ==> old(space.pool.Blocks()) == [] && space.pool.Blocks() == []
    ensures p == -1 ==> !Mapped(space.Now(), v0)
    ensures p != -1 ==> InUseKept(old(space.pool.pages[..]), data, data[p as nat := ProgramPage(file, segs, 4096 * v0)])
    ensures p != -1 ==> start == Zeros() || start == ProgramPage(file, segs, 4096 * v0)
    ensures p != -1 ==>
      Prepared(space.Now(), space.pool.pages[..], data[p as nat := ProgramPage(file, segs, 4096 * v0)],
                                 file, segs, v0, p)
  {
    hide *;
    ghost var s, pages := space.Now(), space.pool.pages[..];
    if pa == 0 {
      NotMapped(s, pages, data, file, segs, v0);
      p := NewFrame(space, data, file, segs, v0);
      start := Zeros();
    } else {
      PreparedOld(s, pages, data, file, segs, v0);
      p := pa / 4096 - T.BASE;
      AddressFrame(T.Lookup(s, v0));
      start := data[p];
      assert data[p as nat := data[p]] == data;
      AllKept(pages, data);
    }
  }

  /** A page of the pool for a page number that is not mapped. */
  method NewFrame(space: T.AddressSpace, ghost data: Frames, ghost file: seq<byte>, ghost segs: seq<Segment>,
                  ghost v0: nat) returns (p: int)
    requires space.Ok() && T.Tree(space.Now()) && T.I0(v0) < 256
    requires forall v: nat :: T.I0(v) < 256 ==> Backed(space.Now(), space.pool.pages[..], data, file, segs, v)
    modifies space.pool, space.pool.pages
    ensures space.Ok() && space.Now() == old(space.Now()) && p >= -1
    ensures p == -1 ==> space.pool.pages[..] == old(space.pool.pages[..])
    ensures p == -1 ==> old(space.pool.Blocks()) == [] && space.pool.Blocks() == []
    ensures p != -1 ==> InUseKept(old(space.pool.pages[..]), data, data[p as nat := ProgramPage(file, segs, 4096 * v0)])
    ensures p != -1 ==>
      Prepared(space.Now(), space.pool.pages[..], data[p as nat := ProgramPage(file, segs, 4096 * v0)],
                                 file, segs, v0, p)
  {
    hide T.Tree, T.Lookup, PagePool.Pool.Valid, PagePool.Pool.Blocks, Backed, Prepared, T.I0, ProgramPage, InUseKept;
    ghost var pages := space.pool.pages[..];
    p := space.TakePage();
    if p != -1 {
      PreparedFresh(space.Now(), pages, space.pool.pages[..], data, file, segs, v0, p);
      FreeIsOther(pages, data, p, ProgramPage(file, segs, 4096 * v0));
    }
  }

  lemma TranslateIs(s: T.Space, bad: nat)
    requires T.Tree(s) && bad < 0x4000000000
    ensures T.I0(bad / 4096) < 256
    ensures T.Translate(s, PageDown(bad)) ==
            if Mapped(s, bad / 4096) then T.Address(T.Lookup(s, bad / 4096)) else 0
  {
    hide T.Tree, T.Lookup;
    PageNumber(bad);
  }

  lemma NotMapped(s: T.Space, pages: seq<PagePool.Page>, data: Frames, file: seq<byte>, segs: seq<Segment>, v0: nat)
    requires T.Tree(s) && T.I0(v0) < 256
    requires forall v: nat :: T.I0(v) < 256 ==> Backed(s, pages, data, file, segs, v)
    ensures Mapped(s, v0) ==> T.Address(T.Lookup(s, v0)) != 0
  {
    hide T.Tree, T.Lookup, T.I0, ProgramPage;
    assert Backed(s, pages, data, file, segs, v0);
  }

  lemma AddressFrame(e: int)
    ensures T.Address(e) / 4096 - T.BASE == T.Frame(e)
  {
  }

  /** What the page becomes: filled from the file if an area of the program has it; without any area the page gets
      one. */
  method Bring(proc: L.Process, file: seq<byte>, segs: seq<Segment>, bad: nat, start: seq<byte>)
    returns (page: seq<byte>)
    requires proc.Valid() && Listed(proc.vmas, segs) && Loadable(segs)
    requires start == Zeros() || start == ProgramPage(file, segs, PageDown(bad))
    modifies proc`vmas
    ensures L.Covered(old(proc.vmas), bad) ==> proc.vmas == old(proc.vmas)
    ensures !L.Covered(old(proc.vmas), bad) ==> Stacked(old(proc.vmas), proc.vmas, bad)
    ensures proc.Valid() && Listed(proc.vmas, segs) && page == ProgramPage(file, segs, PageDown(bad))
  {
    hide Loadable, ProgramPage, PageDown, Listed, L.Sorted, L.Covered, L.HeapOk, L.Insert;
    var k := proc.FindVma(bad);
    ghost var was := proc.vmas;
    AreaFound(was, segs, bad, k);
    PageOfProgram(file, segs, bad);
    page := start;
    if k != -1 {
      if proc.vmas[k].kind == L.Prog {
        page := Refill(file, segs, bad, start);
      }
    } else {
      proc.Fault(bad);
      ghost var at :| 0 <= at <= |was| && proc.vmas == L.Insert(was, at, L.Vma(PageDown(bad), 4096, L.Data));
      ListedMore(was, segs, at, L.Vma(PageDown(bad), 4096, L.Data));
    }
  }

  /** `mappages` for the page. */
  method Install(space: T.AddressSpace, data: Frames, file: seq<byte>, segs: seq<Segment>, flags: nat, bad: nat, p: nat)
      returns (ok: bool)
    requires space.Ok() && T.Tree(space.Now()) && bad < 0x4000000000 && flags < 1024
    requires Prepared(space.Now(), space.pool.pages[..], data, file, segs, bad / 4096, p) && Apart(space.Now())
    modifies space, space.pool, space.pool.pages
    ensures space.Ok() && T.Tree(space.Now()) && T.I0(bad / 4096) < 256 && Apart(space.Now())
    ensures !ok ==> space.pool.Blocks() == []
    ensures forall v: nat :: T.I0(v) < 256 ==> Backed(space.Now(), space.pool.pages[..], data, file, segs, v)
    ensures forall v: nat :: T.I0(v) < 256 && !(ok && v == bad / 4096) ==>
              T.Lookup(space.Now(), v) == T.Lookup(old(space.Now()), v)
    ensures ok ==> MappedWith(space.Now(), bad / 4096, flags)
  {
    hide T.Tree, T.Lookup, PagePool.Pool.Valid, PagePool.Pool.Blocks, Backed, Prepared, T.I0, PageDown, ProgramPage;
    hide T.Maps, T.Obtains, T.Grows, T.Leaf, T.Frame, T.Valid;
    PageNumber(bad);
    ghost var s, pages := space.Now(), space.pool.pages[..];
    ghost var done;
    ok, done := space.Mappages(PageDown(bad), (T.BASE + p) * 4096, 1, flags);
    Installed(s, pages, space.Now(), space.pool.pages[..], data, file, segs, bad / 4096, p, done, flags);
    InstalledApart(s, space.Now(), bad / 4096, p, done, flags);
  }

  lemma PageNumber(bad: nat)
    requires bad < 0x4000000000
    ensures PageDown(bad) == 4096 * (bad / 4096) && PageDown(bad) + 4096 <= 0x4000000000
      && PageDown(bad) / 4096 == bad / 4096
    ensures T.I0(bad / 4096) < 256
  {
  }

  // ---------------------------------------------------------------- runs

  /** Page number `v` is that of one of the first `n` addresses. */
  ghost predicate Among(bads: seq<nat>, n: nat, v: nat)
    requires n <= |bads|
  {
    exists i :: 0 <= i < n && bads[i] / 4096 == v
  }

  lemma AmongMore(bads: seq<nat>, n: nat)
    requires n < |bads|
    ensures forall v: nat :: Among(bads, n + 1, v) <==> Among(bads, n, v) || v == bads[n] / 4096
  {
    forall v: nat | Among(bads, n, v) || v == bads[n] / 4096 ensures Among(bads, n + 1, v) {
      if Among(bads, n, v) {
        var i :| 0 <= i < n && bads[i] / 4096 == v;
        assert 0 <= i < n + 1;
      } else {
        assert 0 <= n < n + 1;
      }
    }
  }

  /** Faults in any order, up to the first that finds the pool empty: just the pages touched are mapped besides those
      that were, and every one of them shows the program loaded at once. */
  method AllFaults(space: T.AddressSpace, proc: L.Process, data: Frames, file: seq<byte>, segs: seq<Segment>,
    flags: nat, bads: seq<nat>)
      returns (n: nat, data': Frames)
    requires Runs(space, proc, data, file, segs) && flags < 1024
    requires forall i :: 0 <= i < |bads| ==> bads[i] < 0x4000000000
    modifies space, space.pool, space.pool.pages, proc`vmas
    ensures n <= |bads| && Runs(space, proc, data', file, segs) && (n < |bads| ==> space.pool.Blocks() == [])
    ensures forall v: nat :: T.I0(v) < 256 ==>
              (Mapped(space.Now(), v) <==> Mapped(old(space.Now()), v) || Among(bads, n, v))
  {
    hide *;
    data', n := data, 0;
    RunFacts(space, proc, data, file, segs);
    ghost var s := space.Now();
    AmongNone(bads);
    while n < |bads|
      invariant n <= |bads| && Runs(space, proc, data', file, segs) && T.Tree(space.Now()) && T.Tree(s)
      invariant forall v: nat :: T.I0(v) < 256 ==> (Mapped(space.Now(), v) <==> Mapped(s, v) || Among(bads, n, v))
    {
      ghost var t := space.Now();
      var res;
      res, data' := DoFault(space, proc, data', file, segs, flags, bads[n]);
      RunFacts(space, proc, data', file, segs);
      PageNumber(bads[n]);
      FaultMaps(s, t, space.Now(), flags, bads, n, res == Handled);
      if res != Handled {
        return;
      }
      n := n + 1;
    }
  }

  lemma AmongNone(bads: seq<nat>)
    ensures forall v: nat :: !Among(bads, 0, v)
  {
  }

  lemma FaultMaps(s: T.Space, t: T.Space, u: T.Space, flags: nat, bads: seq<nat>, n: nat, handled: bool)
    requires T.Tree(s) && T.Tree(t) && T.Tree(u) && n < |bads| && bads[n] < 0x4000000000
    requires forall v: nat :: T.I0(v) < 256 ==> (Mapped(t, v) <==> Mapped(s, v) || Among(bads, n, v))
    requires forall v: nat :: T.I0(v) < 256 && !(handled && v == bads[n] / 4096) ==> T.Lookup(u, v) == T.Lookup(t, v)
    requires T.I0(bads[n] / 4096) < 256 && (handled ==> MappedWith(u, bads[n] / 4096, flags))
    ensures forall v: nat :: T.I0(v) < 256 ==>
              (Mapped(u, v) <==> Mapped(s, v) || Among(bads, if handled then n + 1 else n, v))
  {
    hide T.Tree, T.Lookup, T.I0, Among;
    AmongMore(bads, n);
  }
}
