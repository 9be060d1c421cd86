/** Pages of a program brought in by faults, against the image that loading it at once would give: the program branch
    of `do_page_fault` and `do_exec_fault` of vmm.c, over areas as process.c sets them up from the program headers. */
module DemandPages {
  import opened Bytes
  import opened PageAddress

  /** A loadable segment of the program file. */
  datatype Segment = Segment(vaddr: nat, offset: nat, filesz: nat, memsz: nat)

  /** The area that is set up for a segment: whole pages, with the place of the first byte in the first page. */
  datatype Area = Area(va: nat, size: nat, vmoff: nat, foff: nat, fsize: nat)

  function AreaOf(s: Segment): (v: Area) {
    Area(PageDown(s.vaddr), PageDown(s.vaddr + s.memsz + 4095) - PageDown(s.vaddr), s.vaddr - PageDown(s.vaddr),
      s.offset, s.filesz)
  }

  /** The area is the whole pages that the bytes of the segment take in memory, and begins in the page of the first. */
  lemma AreaIs(s: Segment)
    ensures var v := AreaOf(s);
            && v.va % 4096 == 0 && v.size % 4096 == 0 && v.va <= s.vaddr < v.va + 4096
            && s.vaddr + s.memsz <= v.va + v.size < s.vaddr + s.memsz + 4096
            && v.va + v.vmoff == s.vaddr && v.foff == s.offset && v.fsize == s.filesz
  {
  }

  /** The byte at `u` when `size` bytes of the file from `off` on lie at `begin`; zero elsewhere, and past the file's
      end. */
  function PlainByte(file: seq<byte>, begin: nat, off: nat, size: nat, u: nat): byte {
    if begin <= u < begin + size && off + (u - begin) < |file| then file[off + (u - begin)] else 0
  }

  /** The byte at address `u` of the image: the file's on the first `filesz` bytes of the segment, and zero
      elsewhere. */
  function Image(file: seq<byte>, s: Segment, u: nat): (b: byte) {
    PlainByte(file, s.vaddr, s.offset, s.filesz, u)
  }

  /** The page of the image at `p`. */
  function ImagePage(file: seq<byte>, s: Segment, p: nat): (r: seq<byte>)
    ensures |r| == 4096
  {
    var r: seq<byte> := seq<byte>(4096, k requires 0 <= k < 4096 => Image(file, s, p + k));
    r
  }

  /** `vfs_lseek` and `vfs_read` of at most `n` bytes: what there is of them. */
  method ReadInto(file: seq<byte>, off: nat, mem: array<byte>, at: nat, n: nat)
    requires at + n <= mem.Length
    modifies mem
    ensures forall k :: 0 <= k < mem.Length ==>
              mem[k] == if at <= k < at + n && off + (k - at) < |file| then file[off + (k - at)] else old(mem[k])
  {
    var have := if off + n <= |file| then n else if off <= |file| then |file| - off else 0;
    for i := 0 to have
      invariant forall k :: 0 <= k < mem.Length ==>
        mem[k] == if at <= k < at + i then file[off + (k - at)] else old(mem[k])
    {
      mem[at + i] := file[off + i];
    }
  }

  /** The file has a byte for address `u` of the area. */
  predicate Given(file: seq<byte>, vma: Area, u: nat) {
    vma.va + vma.vmoff <= u < vma.va + vma.vmoff + vma.fsize && vma.foff + (u - (vma.va + vma.vmoff)) < |file|
  }

  /** What the fault handler puts into the page of `bad`: the bytes that the file has for it. */
  method Fill(file: seq<byte>, vma: Area, bad: nat, mem: array<byte>)
    requires vma.vmoff < 4096 && vma.va % 4096 == 0 && vma.va <= bad < vma.va + vma.size && mem.Length == 4096
    modifies mem
    ensures forall k :: 0 <= k < 4096 ==>
              mem[k] == if Given(file, vma, PageDown(bad) + k)
                        then file[vma.foff + (PageDown(bad) + k - (vma.va + vma.vmoff))] else old(mem[k])
  {
    hide PageDown;
    var badpage := PageDown(bad);
    var begin := vma.va + vma.vmoff;
    InArea(vma, bad);
    if badpage <= begin {
      var remain := 4096 - (begin - badpage);
      var n := if vma.fsize < remain then vma.fsize else remain;
      ReadInto(file, vma.foff, mem, begin - badpage, n);
    } else {
      var from := vma.foff + badpage - begin;
      if vma.fsize > from - vma.foff {
        var left := vma.fsize - (from - vma.foff);
        ReadInto(file, from, mem, 0, if left < 4096 then left else 4096);
      }
    }
  }

  /** A fresh, zeroed page filled for `bad`: the page of the image, whichever segment the area was set up for. */
  method FaultIn(file: seq<byte>, vma: Area, bad: nat) returns (mem: array<byte>)
    requires vma.vmoff < 4096 && vma.va % 4096 == 0 && vma.va <= bad < vma.va + vma.size
    ensures fresh(mem) && mem.Length == 4096
    ensures forall s: Segment :: AreaOf(s) == vma ==> mem[..] == ImagePage(file, s, PageDown(bad))
  {
    hide ImagePage, Image, AreaOf, PageDown;
    mem := new byte[4096](_ => 0);
    var badpage, begin := PageDown(bad), vma.va + vma.vmoff;
    Fill(file, vma, bad, mem);
    var page := mem[..];
    forall k | 0 <= k < 4096 ensures page[k] == PlainByte(file, begin, vma.foff, vma.fsize, badpage + k) {}
    forall s: Segment | AreaOf(s) == vma ensures page == ImagePage(file, s, badpage) {
      IsImage(file, s, vma, badpage, page);
    }
  }

  lemma IsImage(file: seq<byte>, s: Segment, vma: Area, badpage: nat, page: seq<byte>)
    requires AreaOf(s) == vma && |page| == 4096
    requires forall k :: 0 <= k < 4096 ==>
      page[k] == PlainByte(file, vma.va + vma.vmoff, vma.foff, vma.fsize, badpage + k)
    ensures page == ImagePage(file, s, badpage)
  {
    hide PageDown;
    assert s.vaddr == vma.va + vma.vmoff;
    forall k | 0 <= k < 4096 ensures page[k] == ImagePage(file, s, badpage)[k] {
      assert page[k] == PlainByte(file, s.vaddr, s.offset, s.filesz, badpage + k);
    }
  }

  lemma InArea(vma: Area, bad: nat)
    requires vma.vmoff < 4096 && vma.va % 4096 == 0 && vma.va <= bad
    ensures vma.va <= PageDown(bad) && (PageDown(bad) <= vma.va + vma.vmoff ==> PageDown(bad) == vma.va)
  {
    assert vma.va / 4096 <= bad / 4096;
  }

  // ---------------------------------------------------------------- the program loaded at once

  /** What a program must have: the file's part of a segment fits into it, and no page belongs to two segments. */
  ghost predicate Loadable(segs: seq<Segment>) {
    && (forall i :: 0 <= i < |segs| ==> segs[i].filesz <= segs[i].memsz)
    && forall i, j :: 0 <= i < |segs| && 0 <= j < |segs| && i != j ==> Separate(AreaOf(segs[i]), AreaOf(segs[j]))
  }

  predicate Separate(a: Area, b: Area) {
    a.va + a.size <= b.va || b.va + b.size <= a.va
  }

  predicate Covers(s: Segment, u: nat) {
    s.vaddr <= u < s.vaddr + s.filesz
  }

  predicate Holds(s: Segment, u: nat) {
    AreaOf(s).va <= u < AreaOf(s).va + AreaOf(s).size
  }

  /** The byte at `u` of the program loaded at once: that of the segment whose file part covers `u`, else zero. */
  function ProgramByte(file: seq<byte>, segs: seq<Segment>, u: nat): byte {
    if segs == [] then 0
    else if Covers(segs[0], u) then Image(file, segs[0], u)
    else ProgramByte(file, segs[1..], u)
  }

  function ProgramPage(file: seq<byte>, segs: seq<Segment>, p: nat): (r: seq<byte>)
    ensures |r| == 4096
  {
    var r: seq<byte> := seq<byte>(4096, k requires 0 <= k < 4096 => ProgramByte(file, segs, p + k));
    r
  }

  function Zeros(): (r: seq<byte>)
    ensures |r| == 4096
  {
    seq<byte>(4096, k requires 0 <= k < 4096 => 0)
  }

  /** The first segment whose area has `u`, as `find_vma` looks it up; `|segs|` when there is none. */
  function AreaAt(segs: seq<Segment>, u: nat): (i: nat)
    ensures i <= |segs|
    ensures i < |segs| ==> Holds(segs[i], u)
    ensures forall j :: 0 <= j < i ==> !Holds(segs[j], u)
  {
    if segs == [] then 0
    else if Holds(segs[0], u) then 0
    else 1 + AreaAt(segs[1..], u)
  }

  /** A byte in the file part of a segment lies in its area. */
  lemma CoversHolds(s: Segment, u: nat)
    requires s.filesz <= s.memsz && Covers(s, u)
    ensures Holds(s, u)
  {
  }

  lemma {:induction false} ByteOfNone(file: seq<byte>, segs: seq<Segment>, u: nat)
    requires forall j :: 0 <= j < |segs| ==> !Covers(segs[j], u)
    ensures ProgramByte(file, segs, u) == 0
  {
    if segs != [] {
      assert !Covers(segs[0], u);
      forall j | 0 <= j < |segs[1..]| ensures !Covers(segs[1..][j], u) {
        assert !Covers(segs[j + 1], u);
      }
      ByteOfNone(file, segs[1..], u);
    }
  }

  lemma {:induction false} ByteOfOne(file: seq<byte>, segs: seq<Segment>, i: nat, u: nat)
    requires i < |segs|
    requires forall j :: 0 <= j < |segs| && j != i ==> !Covers(segs[j], u)
    ensures ProgramByte(file, segs, u) == Image(file, segs[i], u)
  {
    forall j | 0 <= j < |segs[1..]| && j != i - 1 ensures !Covers(segs[1..][j], u) {
      assert !Covers(segs[j + 1], u);
    }
    if i == 0 {
      ByteOfNone(file, segs[1..], u);
    } else {
      assert !Covers(segs[0], u);
      ByteOfOne(file, segs[1..], i - 1, u);
    }
  }

  /** The byte `b` at `u` is what the segments say: the file's where one has `u` in its file part, as far as the file
      goes, and zero elsewhere. */
  ghost predicate IsLoaded(file: seq<byte>, segs: seq<Segment>, u: nat, b: byte) {
    && (forall i :: 0 <= i < |segs| && segs[i].vaddr <= u < segs[i].vaddr + segs[i].filesz ==>
          b == var k := segs[i].offset + (u - segs[i].vaddr); if k < |file| then file[k] else 0)
    && ((forall i :: 0 <= i < |segs| ==> !(segs[i].vaddr <= u < segs[i].vaddr + segs[i].filesz)) ==> b == 0)
  }

  lemma ByteIsLoaded(file: seq<byte>, segs: seq<Segment>, u: nat)
    requires Loadable(segs)
    ensures IsLoaded(file, segs, u, ProgramByte(file, segs, u))
  {
    hide Loadable, ProgramByte;
    if i :| 0 <= i < |segs| && Covers(segs[i], u) {
      forall j | 0 <= j < |segs| && Covers(segs[j], u) ensures j == i {
        OneCovers(segs, u, i, j);
      }
      ByteOfOne(file, segs, i, u);
    } else {
      ByteOfNone(file, segs, u);
    }
  }

  lemma OneCovers(segs: seq<Segment>, u: nat, i: nat, j: nat)
    requires Loadable(segs) && i < |segs| && j < |segs| && Covers(segs[i], u) && Covers(segs[j], u)
    ensures i == j
  {
    hide Covers, PageDown;
    CoversHolds(segs[i], u);
    CoversHolds(segs[j], u);
    forall a, b | 0 <= a < |segs| && 0 <= b < |segs| && a != b ensures !(Holds(segs[a], u) && Holds(segs[b], u)) {
      assert Separate(AreaOf(segs[a]), AreaOf(segs[b]));
    }
  }

  /** An area is whole pages: it holds every byte of a page of which it holds one. */
  lemma WholePages(s: Segment, bad: nat, k: nat)
    requires k < 4096
    ensures Holds(s, PageDown(bad) + k) <==> Holds(s, bad)
  {
    var v := AreaOf(s);
    assert v.va % 4096 == 0 && (v.va + v.size) % 4096 == 0;
    Aligned(v.va, bad, k);
    Aligned(v.va + v.size, bad, k);
  }

  lemma Aligned(edge: nat, bad: nat, k: nat)
    requires edge % 4096 == 0 && k < 4096
    ensures edge <= PageDown(bad) + k <==> edge <= bad
  {
    assert edge == edge / 4096 * 4096;
  }

  /** The page of a fault is that of the whole program: from the segment's own image where an area is found, and zero
      where none is. */
  lemma PageOfProgram(file: seq<byte>, segs: seq<Segment>, bad: nat)
    requires Loadable(segs)
    ensures var i := AreaAt(segs, bad);
            ProgramPage(file, segs, PageDown(bad)) ==
            if i < |segs| then ImagePage(file, segs[i], PageDown(bad)) else Zeros()
  {
    hide Loadable, PageDown, Image, ProgramByte, AreaAt;
    var i, p := AreaAt(segs, bad), PageDown(bad);
    forall u: nat | p <= u < p + 4096 ensures ProgramByte(file, segs, u) == if i < |segs| then Image(file, segs[i], u)
      else 0 {
      ByteOfProgram(file, segs, bad, u - p);
    }
    PageFrom(file, segs, i, p);
  }

  /** A page all of whose bytes come from one segment, or from none. */
  lemma PageFrom(file: seq<byte>, segs: seq<Segment>, i: nat, p: nat)
    requires forall u: nat :: p <= u < p + 4096 ==>
      ProgramByte(file, segs, u) == if i < |segs| then Image(file, segs[i], u) else 0
    ensures ProgramPage(file, segs, p) == if i < |segs| then ImagePage(file, segs[i], p) else Zeros()
  {
    hide Image, ProgramByte;
  }

  lemma ByteOfProgram(file: seq<byte>, segs: seq<Segment>, bad: nat, k: nat)
    requires Loadable(segs) && k < 4096
    ensures var i, u := AreaAt(segs, bad), PageDown(bad) + k;
            ProgramByte(file, segs, u) == if i < |segs| then Image(file, segs[i], u) else 0
  {
    hide Loadable, PageDown, AreaOf, Holds, Covers, Image, ProgramByte, AreaAt;
    var i, u := AreaAt(segs, bad), PageDown(bad) + k;
    forall j | 0 <= j < |segs| && j != i ensures !Covers(segs[j], u) {
      NotCovered(segs, bad, k, j);
    }
    if i < |segs| {
      ByteOfOne(file, segs, i, u);
    } else {
      ByteOfNone(file, segs, u);
    }
  }

  lemma NotCovered(segs: seq<Segment>, bad: nat, k: nat, j: nat)
    requires Loadable(segs) && k < 4096 && j < |segs| && j != AreaAt(segs, bad)
    ensures !Covers(segs[j], PageDown(bad) + k)
  {
    hide PageDown, AreaOf, Holds, Covers, AreaAt, Separate;
    WholePages(segs[j], bad, k);
    if Holds(segs[j], bad) {
      OneArea(segs, bad, AreaAt(segs, bad), j);
    }
    if Covers(segs[j], PageDown(bad) + k) {
      CoversHolds(segs[j], PageDown(bad) + k);
    }
  }

  lemma OneArea(segs: seq<Segment>, bad: nat, i: nat, j: nat)
    requires Loadable(segs) && i == AreaAt(segs, bad) && j < |segs| && Holds(segs[j], bad)
    ensures i == j
  {
    hide AreaAt;
    forall a, b | 0 <= a < |segs| && 0 <= b < |segs| && a != b ensures !(Holds(segs[a], bad) && Holds(segs[b], bad)) {
      assert Separate(AreaOf(segs[a]), AreaOf(segs[b]));
    }
  }

  // ---------------------------------------------------------------- any order of faults

  /** A fault at `bad`, over the pages mapped so far; a page that is mapped does not fault. A program area is filled
      from the file; any other page (stack, heap, anonymous mapping) is left zero. */
  method PageFault(file: seq<byte>, segs: seq<Segment>, pages: map<nat, seq<byte>>, bad: nat)
      returns (now: map<nat, seq<byte>>)
    requires Loadable(segs)
    ensures var p := PageDown(bad); now == if p in pages then pages else pages[p := ProgramPage(file, segs, p)]
  {
    hide ImagePage, ProgramPage, PageDown, Holds, Loadable, AreaAt;
    var badpage := PageDown(bad);
    if badpage in pages {
      return pages;
    }
    PageOfProgram(file, segs, bad);
    var i := AreaAt(segs, bad);
    if i < |segs| {
      var mem := FaultArea(file, segs[i], bad);
      now := pages[badpage := mem[..]];
    } else {
      var mem := new byte[4096](_ => 0);
      assert mem[..] == Zeros();
      now := pages[badpage := mem[..]];
    }
  }

  method FaultArea(file: seq<byte>, s: Segment, bad: nat) returns (mem: array<byte>)
    requires Holds(s, bad)
    ensures mem.Length == 4096 && mem[..] == ImagePage(file, s, PageDown(bad))
  {
    hide ImagePage;
    mem := FaultIn(file, AreaOf(s), bad);
  }

  /** The page at `p` is that of one of the first `n` addresses. */
  ghost predicate Touched(bads: seq<nat>, n: nat, p: nat)
    requires n <= |bads|
  {
    exists i :: 0 <= i < n && PageDown(bads[i]) == p
  }

  /** In whatever order addresses are touched, just their pages are mapped after the faults, and each is the page of the
      program as loaded at once. */
  method AnyOrder(file: seq<byte>, segs: seq<Segment>, pages: map<nat, seq<byte>>, bads: seq<nat>)
      returns (now: map<nat, seq<byte>>)
    requires Loadable(segs) && forall p :: p in pages ==> pages[p] == ProgramPage(file, segs, p)
    ensures forall p :: p in now ==> now[p] == ProgramPage(file, segs, p)
    ensures forall p: nat :: p in now <==> p in pages || Touched(bads, |bads|, p)
  {
    hide ProgramPage, PageDown, Loadable, Touched;
    now := pages;
    TouchedNone(bads);
    for n := 0 to |bads|
      invariant forall p :: p in now ==> now[p] == ProgramPage(file, segs, p)
      invariant forall p: nat :: p in now <==> p in pages || Touched(bads, n, p)
    {
      now := PageFault(file, segs, now, bads[n]);
      TouchedMore(bads, n);
    }
  }

  lemma TouchedNone(bads: seq<nat>)
    ensures forall p: nat :: !Touched(bads, 0, p)
  {
  }

  lemma TouchedMore(bads: seq<nat>, n: nat)
    requires n < |bads|
    ensures forall p: nat :: Touched(bads, n + 1, p) <==> Touched(bads, n, p) || p == PageDown(bads[n])
  {
    hide PageDown;
    forall p: nat | Touched(bads, n + 1, p) ensures Touched(bads, n, p) || p == PageDown(bads[n]) {
      var i :| 0 <= i < n + 1 && PageDown(bads[i]) == p;
      assert i < n || i == n;
    }
    forall p: nat | Touched(bads, n, p) || p == PageDown(bads[n]) ensures Touched(bads, n + 1, p) {
      if Touched(bads, n, p) {
        var i :| 0 <= i < n && PageDown(bads[i]) == p;
        assert 0 <= i < n + 1;
      } else {
        assert 0 <= n < n + 1;
      }
    }
  }
}
