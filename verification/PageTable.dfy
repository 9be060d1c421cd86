/** The three-level Sv39 page table of vmm.c, against the flat map from page numbers to entries that it stands for.
    Section 4.4 of the RISC-V Privileged Architecture, version 20190608. */
module PageTable {
  import PagePool
  import Sv39

  /** Physical page number of page 0 of the pool: `PM_START` is 0x80000000. */
  const BASE: nat := 0x80000

  // ---------------------------------------------------------------- entries and indices

  predicate Valid(pte: int) { pte % 2 == 1 }

  lemma Packed(x: int, r: int)
    requires 0 <= r < 1024
    ensures (x * 1024 + r) / 1024 == x && (x * 1024 + r) % 2 == r % 2
  {
    assert (x * 1024 + r) / 1024 == x;
    Parity(512 * x, r);
  }

  lemma Parity(h: int, r: int)
    ensures (2 * h + r) % 2 == r % 2
  {
  }

  /** `PA2PTE(page) | PTE_V`, an entry that points to the table in page `p` of the pool. */
  function Pointer(p: nat): (pte: nat) { (BASE + p) * 1024 + 1 }

  /** The page of the pool that holds the table of an entry. */
  function Frame(pte: int): (p: int) { pte / 1024 - BASE }

  lemma PointerFrame(p: nat)
    ensures Valid(Pointer(p)) && Frame(Pointer(p)) == p
  {
    Packed(BASE + p, 1);
  }

  lemma InvalidZero()
    ensures !Valid(0)
  {
  }

  /** `PTE2PA`. */
  function Address(pte: int): (pa: int) { pte / 1024 * 4096 }

  /** `PA2PTE(pa) | PTE_V | flags`, for flags in the low ten bits. */
  function Leaf(pa: nat, flags: nat): (pte: nat) { pa / 4096 * 1024 + if flags % 2 == 0 then flags + 1 else flags }

  lemma LeafAddress(pa: nat, flags: nat)
    requires pa % 4096 == 0 && flags < 1024
    ensures Valid(Leaf(pa, flags)) && Address(Leaf(pa, flags)) == pa
  {
    Packed(pa / 4096, if flags % 2 == 0 then flags + 1 else flags);
  }

  function I0(v: nat): (i: nat) { v / 262144 }

  function I1(v: nat): (j: nat)
    ensures j < 512
  {
    v / 512 % 512
  }

  function I2(v: nat): (k: nat)
    ensures k < 512
  {
    v % 512
  }

  /** The indices that the code takes from a user address are those of its page number. */
  lemma Indices(va: nat)
    requires va < 0x4000000000
    ensures va / 0x40000000 % 512 == I0(va / 4096) < 256
    ensures va / 0x200000 % 512 == I1(va / 4096) && va / 4096 % 512 == I2(va / 4096)
  {
    var v, r := va / 4096, va % 4096;
    var a, b := v / 512, v % 512;
    assert va == 0x200000 * a + (4096 * b + r) && 4096 * b + r < 0x200000;
    assert va / 0x200000 == a;
    var c, d := v / 262144, v % 262144;
    assert va == 0x40000000 * c + (4096 * d + r) && 4096 * d + r < 0x40000000;
    assert va / 0x40000000 == c;
  }

  lemma SameIndices(v: nat, w: nat)
    ensures v == w <==> I0(v) == I0(w) && I1(v) == I1(w) && I2(v) == I2(w)
  {
    Parts(v);
    Parts(w);
    hide I0, I1, I2;
  }

  lemma Parts(v: nat)
    ensures v == 262144 * I0(v) + 512 * I1(v) + I2(v)
  {
    var a := v / 512;
    assert a == 512 * (a / 512) + a % 512;
    assert a / 512 == v / 262144;
  }

  // ---------------------------------------------------------------- the tree

  /** What a page does in the tree: the root, the table of root entry `i`, or of entry `j` of that. */
  datatype Role = Root | Mid(i: nat) | Low(i: nat, j: nat)

  type Memory = seq<seq<int>>

  ghost predicate Shaped(mem: Memory) { forall p :: 0 <= p < |mem| ==> |mem[p]| == 512 }

  datatype Space = Space(mem: Memory, root: nat, role: map<nat, Role>)

  ghost predicate Has(s: Space, p: int, r: Role) { 0 <= p < |s.mem| && p in s.role && s.role[p] == r }

  /** Entry `e` is not valid, or is a pointer to the page that has role `r`. */
  ghost predicate Leads(s: Space, e: int, r: Role) { Valid(e) ==> Has(s, Frame(e), r) && e == Pointer(Frame(e)) }

  ghost predicate RootOk(s: Space)
    requires Shaped(s.mem)
  {
    && Has(s, s.root, Root)
    && (forall i :: 0 <= i < 256 ==> Leads(s, s.mem[s.root][i], Mid(i)))
  }

  ghost predicate MidOk(s: Space, p: nat)
    requires Shaped(s.mem) && p < |s.mem| && s.root < |s.mem|
  {
    p in s.role && s.role[p].Mid? && s.role[p].i < 256 && s.mem[s.root][s.role[p].i] == Pointer(p)
    && forall j :: 0 <= j < 512 ==> Leads(s, s.mem[p][j], Low(s.role[p].i, j))
  }

  ghost predicate LowOk(s: Space, q: nat)
    requires Shaped(s.mem) && q < |s.mem| && s.root < |s.mem|
  {
    && q in s.role && s.role[q].Low? && s.role[q].i < 256 && s.role[q].j < 512
    && var e := s.mem[s.root][s.role[q].i];
      Valid(e) && Has(s, Frame(e), Mid(s.role[q].i))
      && s.mem[Frame(e)][s.role[q].j] == Pointer(q)
  }

  /** Every valid entry of the user half leads to the page with its role, and every page with a role is led to. */
  ghost predicate Tree(s: Space) {
    && Shaped(s.mem) && RootOk(s)
    && (forall p :: p in s.role ==>
      p < |s.mem| && (if p == s.root then s.role[p] == Root else MidOk(s, p) || LowOk(s, p)))
  }

  /** No table is shared: a role belongs to one page. */
  lemma NoSharing(s: Space, p: nat, q: nat)
    requires Tree(s) && p in s.role && q in s.role && s.role[p] == s.role[q]
    ensures p == q
  {
    assert s.role[s.root] == Root;
  }

  /** The entry for page `v`, or 0 if the walk ends early or the entry is not valid. */
  ghost function Lookup(s: Space, v: nat): (e: int)
    requires Tree(s) && I0(v) < 256
  {
    var e0 := s.mem[s.root][I0(v)];
    if !Valid(e0) then 0
    else
      assert Leads(s, e0, Mid(I0(v)));
      assert MidOk(s, Frame(e0));
      var e1 := s.mem[Frame(e0)][I1(v)];
      if !Valid(e1) then 0
      else
        assert Leads(s, e1, Low(I0(v), I1(v)));
        var e2 := s.mem[Frame(e1)][I2(v)];
        if Valid(e2) then e2 else 0
  }

  // ---------------------------------------------------------------- steps on the tree

  function Zeros(): (t: seq<int>)
    ensures |t| == 512 && forall k :: 0 <= k < 512 ==> t[k] == 0
  {
    seq(512, k => 0)
  }

  /** A zeroed page `p` as the table of root entry `i`. */
  ghost function AddMid(s: Space, i: nat, p: nat): (r: Space)
    requires Tree(s) && i < 256 && p < |s.mem|
  {
    var mem := s.mem[p := Zeros()];
    Space(mem[s.root := mem[s.root][i := Pointer(p)]], s.root, s.role[p := Mid(i)])
  }

  /** A zeroed page `q` as the table of entry `j` of the table in page `p`. */
  ghost function AddLow(s: Space, p: nat, j: nat, q: nat): (r: Space)
    requires Tree(s) && p in s.role && s.role[p].Mid? && j < 512 && q < |s.mem|
  {
    var mem := s.mem[q := Zeros()];
    Space(mem[p := mem[p][j := Pointer(q)]], s.root, s.role[q := Low(s.role[p].i, j)])
  }

  ghost function SetEntry(s: Space, q: nat, k: nat, e: int): (r: Space)
    requires Tree(s) && q in s.role && k < 512
  {
    s.(mem := s.mem[q := s.mem[q][k := e]])
  }

  lemma AddMidTree(s: Space, i: nat, p: nat)
    requires Tree(s) && i < 256 && p < |s.mem| && p !in s.role && !Valid(s.mem[s.root][i])
    ensures Tree(AddMid(s, i, p))
  {
    hide Pointer, Frame, Valid;
    PointerFrame(p);
    var t := AddMid(s, i, p);
    assert Shaped(t.mem);
    assert !Valid(0) by { InvalidZero(); }
    forall n | 0 <= n < 256 ensures Leads(t, t.mem[t.root][n], Mid(n)) {
      assert Leads(s, s.mem[s.root][n], Mid(n));
    }
    forall q | q in t.role && q != t.root ensures q < |t.mem| && (MidOk(t, q) || LowOk(t, q)) {
      if q == p {
        assert MidOk(t, q);
      } else if MidOk(s, q) {
        PointerFrame(q);
        assert s.role[q].i != i;
        forall j | 0 <= j < 512 ensures Leads(t, t.mem[q][j], Low(t.role[q].i, j)) {
          assert Leads(s, s.mem[q][j], Low(s.role[q].i, j));
        }
        assert MidOk(t, q);
      } else {
        assert LowOk(s, q);
        assert s.role[q].i != i;
        assert LowOk(t, q);
      }
    }
  }

  lemma AddLowTree(s: Space, p: nat, j: nat, q: nat)
    requires Tree(s) && p in s.role && s.role[p].Mid? && j < 512 && q < |s.mem| && q !in s.role && !Valid(s.mem[p][j])
    ensures Tree(AddLow(s, p, j, q))
  {
    hide Pointer, Frame, Valid;
    PointerFrame(q);
    InvalidZero();
    var t := AddLow(s, p, j, q);
    assert Shaped(t.mem) && MidOk(s, p);
    forall n | 0 <= n < 256 ensures Leads(t, t.mem[t.root][n], Mid(n)) {
      assert Leads(s, s.mem[s.root][n], Mid(n));
    }
    forall r | r in t.role && r != t.root ensures r < |t.mem| && (MidOk(t, r) || LowOk(t, r)) {
      if r == q {
        PointerFrame(p);
        assert LowOk(t, r);
      } else if MidOk(s, r) {
        forall n | 0 <= n < 512 ensures Leads(t, t.mem[r][n], Low(t.role[r].i, n)) {
          assert Leads(s, s.mem[r][n], Low(s.role[r].i, n));
        }
        assert MidOk(t, r);
      } else {
        assert LowOk(s, r);
        PointerFrame(r);
        assert LowOk(t, r);
      }
    }
  }

  lemma SetEntryTree(s: Space, q: nat, k: nat, e: int)
    requires Tree(s) && q in s.role && s.role[q].Low? && k < 512
    ensures Tree(SetEntry(s, q, k, e))
  {
    hide Pointer, Frame, Valid;
    var t := SetEntry(s, q, k, e);
    assert Shaped(t.mem) && q != s.root;
    forall n | 0 <= n < 256 ensures Leads(t, t.mem[t.root][n], Mid(n)) {
      assert Leads(s, s.mem[s.root][n], Mid(n));
    }
    forall r | r in t.role && r != t.root ensures r < |t.mem| && (MidOk(t, r) || LowOk(t, r)) {
      if MidOk(s, r) {
        forall n | 0 <= n < 512 ensures Leads(t, t.mem[r][n], Low(t.role[r].i, n)) {
          assert Leads(s, s.mem[r][n], Low(s.role[r].i, n));
        }
        assert MidOk(t, r);
      } else {
        assert LowOk(s, r);
        assert LowOk(t, r);
      }
    }
  }

  /** A new empty table changes nothing that is mapped. */
  lemma AddMidLookup(s: Space, i: nat, p: nat, v: nat)
    requires Tree(s) && i < 256 && p < |s.mem| && p !in s.role && !Valid(s.mem[s.root][i]) && I0(v) < 256
    ensures Tree(AddMid(s, i, p)) && Lookup(AddMid(s, i, p), v) == Lookup(s, v)
  {
    AddMidTree(s, i, p);
    hide Pointer, Frame, Valid, I0, I1, I2;
    PointerFrame(p);
    InvalidZero();
    var e0 := s.mem[s.root][I0(v)];
    assert Leads(s, e0, Mid(I0(v)));
    if Valid(e0) {
      assert MidOk(s, Frame(e0));
      assert Leads(s, s.mem[Frame(e0)][I1(v)], Low(I0(v), I1(v)));
    }
  }

  lemma AddLowLookup(s: Space, p: nat, j: nat, q: nat, v: nat)
    requires Tree(s) && p in s.role && s.role[p].Mid? && j < 512 && q < |s.mem| && q !in s.role && !Valid(s.mem[p][j])
      && I0(v) < 256
    ensures Tree(AddLow(s, p, j, q)) && Lookup(AddLow(s, p, j, q), v) == Lookup(s, v)
  {
    AddLowTree(s, p, j, q);
    hide Pointer, Frame, Valid, I0, I1, I2, Tree;
    PointerFrame(q);
    InvalidZero();
    WalkShape(s, v);
    WalkShape(AddLow(s, p, j, q), v);
    MidOne(s, p, v);
  }

  /** The steps of a walk lead to pages with their roles. */
  lemma WalkShape(s: Space, v: nat)
    requires Tree(s) && I0(v) < 256
    ensures Shaped(s.mem) && Has(s, s.root, Root) && Leads(s, s.mem[s.root][I0(v)], Mid(I0(v)))
    ensures Valid(s.mem[s.root][I0(v)]) ==>
              Leads(s, s.mem[Frame(s.mem[s.root][I0(v)])][I1(v)], Low(I0(v), I1(v)))
  {
    hide Pointer, Frame, Valid, I0, I1, I2;
    var e0 := s.mem[s.root][I0(v)];
    if Valid(e0) {
      assert Leads(s, e0, Mid(I0(v)));
      assert MidOk(s, Frame(e0));
    }
  }

  /** A table of the second level is not the root. */
  lemma MidOne(s: Space, p: nat, v: nat)
    requires Tree(s) && p in s.role && s.role[p].Mid?
    ensures p < |s.mem| && p != s.root
  {
  }

  /** Page `q` holds the last-level table for page number `v`. */
  ghost predicate Holds(s: Space, v: nat, q: nat) { q in s.role && s.role[q] == Low(I0(v), I1(v)) }

  lemma SetEntryLookup(s: Space, v: nat, q: nat, e: int, w: nat)
    requires Tree(s) && I0(v) < 256 && I0(w) < 256 && Holds(s, v, q)
    ensures Tree(SetEntry(s, q, I2(v), e))
    ensures Lookup(SetEntry(s, q, I2(v), e), w) == if w == v then (if Valid(e) then e else 0) else Lookup(s, w)
  {
    SetEntryTree(s, q, I2(v), e);
    SameIndices(v, w);
    hide Pointer, Frame, Valid, I0, I1, I2;
    PointerFrame(q);
    var e0 := s.mem[s.root][I0(w)];
    assert Leads(s, e0, Mid(I0(w)));
    assert LowOk(s, q);
    if Valid(e0) {
      assert MidOk(s, Frame(e0));
      assert Leads(s, s.mem[Frame(e0)][I1(w)], Low(I0(w), I1(w)));
    }
  }

  // ---------------------------------------------------------------- relating two states

  ghost predicate SameMap(s: Space, t: Space)
    requires Tree(s) && Tree(t)
  {
    forall v: nat :: I0(v) < 256 ==> Lookup(t, v) == Lookup(s, v)
  }

  /** The tree has only grown, and pages that are not in it are as they were. */
  ghost predicate Grows(s: Space, t: Space) {
    && t.root == s.root && |t.mem| == |s.mem|
    && (forall p :: p in s.role ==> p in t.role && t.role[p] == s.role[p])
    && (forall p :: 0 <= p < |s.mem| && p !in t.role ==> t.mem[p] == s.mem[p])
  }

  /** The pages that were added to the tree were free and are in use now; all others are as they were. */
  ghost predicate Obtains(pages: seq<PagePool.Page>, pages': seq<PagePool.Page>, s: Space, t: Space) {
    && |pages'| == |pages|
    && (forall p :: p in t.role && p !in s.role ==> p < |pages| && pages[p].flag == PagePool.Free)
    && forall p: nat :: p < |pages| ==>
      pages'[p].flag == if p in t.role && p !in s.role then PagePool.Used else pages[p].flag
  }

  /** Page numbers from `v0` on, `n` of them, lead to consecutive pages from `pa` on; all others lead where they led. */
  ghost predicate Maps(s: Space, t: Space, v0: nat, n: nat, pa: nat, flags: nat)
    requires Tree(s) && Tree(t)
  {
    forall v: nat :: I0(v) < 256 ==>
      Lookup(t, v) == if v0 <= v < v0 + n then Leaf(pa + 4096 * (v - v0), flags) else Lookup(s, v)
  }

  lemma GrowsTrans(s: Space, t: Space, u: Space)
    requires Grows(s, t) && Grows(t, u)
    ensures Grows(s, u)
  {
  }

  lemma ObtainsTrans(a: seq<PagePool.Page>, b: seq<PagePool.Page>, c: seq<PagePool.Page>, s: Space, t: Space, u: Space)
    requires Obtains(a, b, s, t) && Obtains(b, c, t, u) && Grows(s, t) && Grows(t, u)
    ensures Obtains(a, c, s, u)
  {
  }

  lemma AddMidSteps(s: Space, i: nat, p: nat)
    requires Tree(s) && i < 256 && p < |s.mem| && p !in s.role && !Valid(s.mem[s.root][i])
    ensures Tree(AddMid(s, i, p)) && SameMap(s, AddMid(s, i, p)) && Grows(s, AddMid(s, i, p))
      && Has(AddMid(s, i, p), p, Mid(i))
  {
    hide Lookup, Tree, I0, I1, I2, Pointer, Valid;
    AddMidTree(s, i, p);
    AddMidGrows(s, i, p);
    hide Grows, Has;
    forall v: nat | I0(v) < 256 ensures Lookup(AddMid(s, i, p), v) == Lookup(s, v) {
      AddMidLookup(s, i, p, v);
    }
  }

  lemma AddMidGrows(s: Space, i: nat, p: nat)
    requires Tree(s) && i < 256 && p < |s.mem| && p !in s.role
    ensures Grows(s, AddMid(s, i, p)) && Has(AddMid(s, i, p), p, Mid(i))
  {
    RootIn(s);
    hide Tree, Pointer, Valid;
  }

  lemma AddLowGrows(s: Space, p: nat, j: nat, q: nat)
    requires Tree(s) && p in s.role && s.role[p].Mid? && j < 512 && q < |s.mem| && q !in s.role
    ensures Grows(s, AddLow(s, p, j, q)) && Has(AddLow(s, p, j, q), q, Low(s.role[p].i, j))
  {
    LowShape(s, p);
    hide Tree, Pointer, Valid;
  }

  lemma RootIn(s: Space)
    requires Tree(s)
    ensures s.root in s.role && s.root < |s.mem|
  {
  }

  lemma AddLowSteps(s: Space, p: nat, j: nat, q: nat)
    requires Tree(s) && p in s.role && s.role[p].Mid? && j < 512 && q < |s.mem| && q !in s.role && !Valid(s.mem[p][j])
    ensures Tree(AddLow(s, p, j, q)) && SameMap(s, AddLow(s, p, j, q)) && Grows(s, AddLow(s, p, j, q))
    ensures Has(AddLow(s, p, j, q), q, Low(s.role[p].i, j))
  {
    hide Lookup, Tree, I0, I1, I2, Pointer, Valid;
    AddLowTree(s, p, j, q);
    AddLowGrows(s, p, j, q);
    hide Grows, Has;
    forall v: nat | I0(v) < 256 ensures Lookup(AddLow(s, p, j, q), v) == Lookup(s, v) {
      AddLowLookup(s, p, j, q, v);
    }
  }

  /** One more page mapped. */
  lemma SetMaps(s: Space, t: Space, v0: nat, n: nat, pa: nat, flags: nat, q: nat)
    requires Tree(s) && Tree(t) && Maps(s, t, v0, n, pa, flags) && I0(v0 + n) < 256 && Holds(t, v0 + n, q)
    requires pa % 4096 == 0 && flags < 1024
    ensures Tree(SetEntry(t, q, I2(v0 + n), Leaf(pa + 4096 * n, flags)))
    ensures Maps(s, SetEntry(t, q, I2(v0 + n), Leaf(pa + 4096 * n, flags)), v0, n + 1, pa, flags)
  {
    hide Lookup, Tree, Leaf, Valid, I0, I1, I2, SetEntry;
    SetEntryTree(t, q, I2(v0 + n), Leaf(pa + 4096 * n, flags));
    forall v: nat | I0(v) < 256
      ensures Lookup(SetEntry(t, q, I2(v0 + n), Leaf(pa + 4096 * n, flags)), v)
              == if v0 <= v < v0 + n + 1 then Leaf(pa + 4096 * (v - v0), flags) else Lookup(s, v)
    {
      SetMapsAt(s, t, v0, n, pa, flags, q, v);
    }
  }

  lemma SetMapsAt(s: Space, t: Space, v0: nat, n: nat, pa: nat, flags: nat, q: nat, v: nat)
    requires Tree(s) && Tree(t) && Maps(s, t, v0, n, pa, flags) && I0(v0 + n) < 256 && I0(v) < 256
      && Holds(t, v0 + n, q)
    requires pa % 4096 == 0 && flags < 1024
    ensures Tree(SetEntry(t, q, I2(v0 + n), Leaf(pa + 4096 * n, flags)))
    ensures Lookup(SetEntry(t, q, I2(v0 + n), Leaf(pa + 4096 * n, flags)), v)
            == if v0 <= v < v0 + n + 1 then Leaf(pa + 4096 * (v - v0), flags) else Lookup(s, v)
  {
    hide Lookup, Tree, Leaf, Valid, I0, I1, I2, SetEntry, Address;
    Aligned(pa, n);
    LeafAddress(pa + 4096 * n, flags);
    SetEntryTree(t, q, I2(v0 + n), Leaf(pa + 4096 * n, flags));
    SetEntryLookup(t, v0 + n, q, Leaf(pa + 4096 * n, flags), v);
  }

  lemma SameMaps(s: Space, t: Space, u: Space, v0: nat, n: nat, pa: nat, flags: nat)
    requires Tree(s) && Tree(t) && Tree(u) && Maps(s, t, v0, n, pa, flags) && SameMap(t, u)
    ensures Maps(s, u, v0, n, pa, flags)
  {
    hide Lookup, Tree, Leaf;
  }

  // ---------------------------------------------------------------- the code

  class AddressSpace {
    const pool: PagePool.Pool
    const root: nat
    var mem: Memory
    ghost var role: map<nat, Role>

    ghost function Now(): (s: Space)
      reads this
    {
      Space(mem, root, role)
    }

    /** The tables form a tree in pages of the pool that are in use. */
    ghost predicate Ok()
      reads this, pool, pool.pages
    {
      && pool.Valid() && |mem| == pool.pages.Length && Tree(Now())
      && forall p :: p in role ==> p < pool.pages.Length && pool.pages[p].flag == PagePool.Used
    }

    /** A root table whose user half is empty. */
    constructor (pool: PagePool.Pool, root: nat, mem: Memory)
      requires pool.Valid() && |mem| == pool.pages.Length && Shaped(mem)
      requires root < |mem| && pool.pages[root].flag == PagePool.Used && forall i :: 0 <= i < 256 ==> mem[root][i] == 0
      ensures Ok() && this.pool == pool && this.root == root && this.mem == mem && role == map[root := Root]
      ensures forall v: nat :: I0(v) < 256 ==> Lookup(Now(), v) == 0
    {
      this.pool := pool;
      this.root := root;
      this.mem := mem;
      this.role := map[root := Root];
    }

    /** A page of the pool that was free, or -1. */
    method TakePage() returns (p: int)
      requires pool.Valid()
      modifies pool, pool.pages
      ensures pool.Valid() && (p == -1 <==> old(pool.Blocks()) == [])
      ensures p == -1 ==> pool.pages[..] == old(pool.pages[..]) && pool.Blocks() == []
      ensures p != -1 ==> 0 <= p < pool.pages.Length && old(pool.pages[..])[p].flag == PagePool.Free
      ensures p != -1 ==> forall q: nat :: q < pool.pages.Length ==>
                            pool.pages[..][q].flag == if q == p then PagePool.Used else old(pool.pages[..])[q].flag
    {
      hide *;
      NoneLeft();
      p := pool.AllocPages(1);
    }

    /** `vm_alloc_pages(1)`: a page full of zeros, or -1. */
    method NewTable() returns (p: int)
      requires Ok()
      modifies `mem, pool, pool.pages
      ensures pool.Valid() && (p == -1 <==> old(pool.Blocks()) == [])
      ensures p == -1 ==> mem == old(mem) && pool.pages[..] == old(pool.pages[..]) && pool.Blocks() == []
      ensures p != -1 ==> 0 <= p < |old(mem)| && p !in role && mem == old(mem)[p := Zeros()]
      ensures p != -1 ==> old(pool.pages[..])[p].flag == PagePool.Free
      ensures p != -1 ==> forall q: nat :: q < pool.pages.Length ==>
                            pool.pages[..][q].flag == if q == p then PagePool.Used else old(pool.pages[..])[q].flag
    {
      hide Tree, PagePool.Pool.Valid, PagePool.Pool.Blocks;
      p := TakePage();
      if p != -1 {
        mem := mem[p := Zeros()];
      }
    }

    lemma NoneLeft()
      requires pool.Valid()
      ensures (forall i :: 0 <= i < |pool.Blocks()| ==> pool.Blocks()[i].size < 1) <==> pool.Blocks() == []
    {
      PagePool.BlocksInside(pool.Blocks(), pool.pages[..], pool.first, pool.pageNum);
    }

    /** A new table for root entry `i`; -1 if there is no page. */
    method NewMid(i: nat) returns (p: int)
      requires Ok() && i < 256 && !HasEntry(Now(), root, i)
      modifies this, pool, pool.pages
      ensures Ok() && SameMap(old(Now()), Now()) && Grows(old(Now()), Now())
      ensures Obtains(old(pool.pages[..]), pool.pages[..], old(Now()), Now())
      ensures if p == -1 then pool.Blocks() == [] else Has(Now(), p, Mid(i))
    {
      hide Tree, PagePool.Pool.Valid, Pointer, Frame, PagePool.Pool.Blocks, SameMap, Grows, Obtains, Has;
      RootAt(i);
      ghost var s, pages := Now(), pool.pages[..];
      p := NewTable();
      if p == -1 {
        Still(s, pages);
        return;
      }
      AddMidSteps(s, i, p);
      mem := mem[root := mem[root][i := Pointer(p)]];
      role := role[p as nat := Mid(i)];
      ObtainsOne(pages, pool.pages[..], s, Now(), p, Mid(i));
    }

    /** The table of root entry `i`, made if there is none. */
    method MidTable(i: nat) returns (p: int)
      requires Ok() && i < 256
      modifies this, pool, pool.pages
      ensures Ok() && SameMap(old(Now()), Now()) && Grows(old(Now()), Now())
      ensures Obtains(old(pool.pages[..]), pool.pages[..], old(Now()), Now())
      ensures if p == -1 then pool.Blocks() == [] else Has(Now(), p, Mid(i))
    {
      RootAt(i);
      hide Tree, PagePool.Pool.Valid, Pointer, Frame, PagePool.Pool.Blocks, SameMap, Grows, Obtains, Has;
      var e := mem[root][i];
      if !Valid(e) {
        p := NewMid(i);
      } else {
        Still(Now(), pool.pages[..]);
        p := Frame(e);
      }
    }

    /** A new table for entry `j` of the table in page `p`. */
    method NewLow(p: nat, ghost i: nat, j: nat) returns (q: int)
      requires Ok() && Has(Now(), p, Mid(i)) && j < 512 && !HasEntry(Now(), p, j)
      modifies this, pool, pool.pages
      ensures Ok() && SameMap(old(Now()), Now()) && Grows(old(Now()), Now())
      ensures Obtains(old(pool.pages[..]), pool.pages[..], old(Now()), Now())
      ensures if q == -1 then pool.Blocks() == [] else Has(Now(), q, Low(i, j))
    {
      hide Tree, PagePool.Pool.Valid, Pointer, Frame, PagePool.Pool.Blocks, SameMap, Grows, Obtains, Has;
      MidAt(p, i, j);
      ghost var s, pages := Now(), pool.pages[..];
      q := NewTable();
      if q == -1 {
        Still(s, pages);
        return;
      }
      AddLowSteps(s, p, j, q);
      mem := mem[p := mem[p][j := Pointer(q)]];
      role := role[q as nat := Low(i, j)];
      ObtainsOne(pages, pool.pages[..], s, Now(), q, Low(i, j));
    }

    /** The table of entry `j` of the table in page `p`, made if there is none. */
    method LowTable(p: nat, ghost i: nat, j: nat) returns (q: int)
      requires Ok() && Has(Now(), p, Mid(i)) && j < 512
      modifies this, pool, pool.pages
      ensures Ok() && SameMap(old(Now()), Now()) && Grows(old(Now()), Now())
      ensures Obtains(old(pool.pages[..]), pool.pages[..], old(Now()), Now())
      ensures if q == -1 then pool.Blocks() == [] else Has(Now(), q, Low(i, j))
    {
      MidAt(p, i, j);
      hide Tree, PagePool.Pool.Valid, Pointer, Frame, PagePool.Pool.Blocks, SameMap, Grows, Obtains, Has;
      var e := mem[p][j];
      if !Valid(e) {
        q := NewLow(p, i, j);
      } else {
        Still(Now(), pool.pages[..]);
        q := Frame(e);
      }
    }

    lemma MidAt(p: nat, i: nat, j: nat)
      requires Ok() && Has(Now(), p, Mid(i)) && j < 512
      ensures p < |mem| && p in role && role[p] == Mid(i) && |mem[p]| == 512
      ensures Valid(mem[p][j]) ==> Frame(mem[p][j]) != -1 && Has(Now(), Frame(mem[p][j]), Low(i, j))
    {
      assert MidOk(Now(), p);
      assert Leads(Now(), mem[p][j], Low(i, j));
    }

    lemma RootAt(i: nat)
      requires Ok() && i < 256
      ensures root < |mem| && root in role && |mem[root]| == 512
      ensures Valid(mem[root][i]) ==> Frame(mem[root][i]) != -1 && Has(Now(), Frame(mem[root][i]), Mid(i))
    {
      assert Leads(Now(), mem[root][i], Mid(i));
    }

    /** The walk of `mappages`, which makes the tables that are missing. */
    method Walk(va: nat) returns (q: int)
      requires Ok() && va < 0x4000000000
      modifies this, pool, pool.pages
      ensures Ok() && SameMap(old(Now()), Now()) && Grows(old(Now()), Now())
      ensures Obtains(old(pool.pages[..]), pool.pages[..], old(Now()), Now())
      ensures if q == -1 then pool.Blocks() == [] else Has(Now(), q, Low(I0(va / 4096), I1(va / 4096)))
    {
      hide Tree, PagePool.Pool.Valid, Pointer, Frame, PagePool.Pool.Blocks, SameMap, Grows, Obtains, Has, I0, I1, I2;
      Indices(va);
      ghost var s, pages := Now(), pool.pages[..];
      q := -1;
      var p := MidTable(va / 0x40000000 % 512);
      ghost var t, pages1 := Now(), pool.pages[..];
      if p == -1 {
        return;
      }
      HasSome(t, p, Mid(I0(va / 4096)));
      q := LowTable(p, I0(va / 4096), va / 0x200000 % 512);
      GrowsTrans(s, t, Now());
      ObtainsTrans(pages, pages1, pool.pages[..], s, t, Now());
      SameTrans(s, t, Now());
    }

    /** One store into a last-level table. */
    method Put(q: nat, k: nat, e: int, ghost s: Space, ghost pages: seq<PagePool.Page>)
      requires Ok() && q in role && role[q].Low? && k < 512 && Grows(s, Now())
        && Obtains(pages, pool.pages[..], s, Now())
      modifies `mem
      ensures Ok() && Now() == SetEntry(old(Now()), q, k, e) && Grows(s, Now())
        && Obtains(pages, pool.pages[..], s, Now())
    {
      hide Tree, PagePool.Pool.Valid, PagePool.Pool.Blocks, Grows, Obtains;
      ghost var t := Now();
      LowShape(t, q);
      SetEntryTree(t, q, k, e);
      SetGrows(s, t, q, k, e, pages, pool.pages[..]);
      mem := mem[q := mem[q][k := e]];
    }

    /** One page of `mappages`. */
    method MapOne(va: nat, pa: nat, flags: nat, ghost s: Space, ghost v0: nat, ghost n: nat, ghost from: nat)
      returns (ok: bool)
      requires Ok() && va == 4096 * (v0 + n) < 0x4000000000 && pa == from + 4096 * n && from % 4096 == 0 && flags < 1024
      requires Tree(s) && Maps(s, Now(), v0, n, from, flags)
      modifies this, pool, pool.pages
      ensures Ok() && Maps(s, Now(), v0, if ok then n + 1 else n, from, flags) && Grows(old(Now()), Now())
      ensures Obtains(old(pool.pages[..]), pool.pages[..], old(Now()), Now())
      ensures !ok ==> pool.Blocks() == []
    {
      hide Tree, PagePool.Pool.Valid, Pointer, Frame, PagePool.Pool.Blocks, SameMap, Grows, Obtains, Maps, Leaf, I0,
        I1, I2, Lookup, Has;
      MapIndices(va, v0 + n);
      ghost var t, pages := Now(), pool.pages[..];
      var q := Walk(va);
      ghost var u := Now();
      SameMaps(s, t, u, v0, n, from, flags);
      ok := q != -1;
      if ok {
        HasIs(u, q, v0 + n);
        SetMaps(s, u, v0, n, from, flags, q);
        Put(q, va / 4096 % 512, Leaf(pa, flags), t, pages);
      }
    }

    /** `mappages`: 1 if all pages were mapped; else none was for bad arguments, or `done` were when memory ran out. */
    method Mappages(va: nat, pa: nat, count: nat, flags: nat) returns (ok: bool, ghost done: nat)
      requires Ok() && va + 4096 * count <= 0x4000000000 && flags < 1024
      modifies this, pool, pool.pages
      ensures Ok() && Grows(old(Now()), Now()) && done <= count
      ensures Obtains(old(pool.pages[..]), pool.pages[..], old(Now()), Now())
      ensures Maps(old(Now()), Now(), va / 4096, done, pa, flags)
      ensures ok ==> count > 0 && done == count && va % 4096 == 0 && pa % 4096 == 0
      ensures !ok ==>
        (done == 0 && (count == 0 || va % 4096 != 0 || pa % 4096 != 0)) || (done < count && pool.Blocks() == [])
      ensures Entries(old(mem), mem, root, va, done, pa, flags)
    {
      hide *;
      ghost var s := Now();
      NowIs();
      ok, done := MapAll(va, pa, count, flags);
      NowIs();
      MapsEntries(s, Now(), va, done, pa, flags);
    }

    lemma NowIs()
      requires Ok()
      ensures Tree(Now()) && Now().mem == mem && Now().root == root
    {
    }

    /** The loop of `mappages`. */
    method MapAll(va: nat, pa: nat, count: nat, flags: nat) returns (ok: bool, ghost done: nat)
      requires Ok() && va + 4096 * count <= 0x4000000000 && flags < 1024
      modifies this, pool, pool.pages
      ensures Ok() && Grows(old(Now()), Now()) && done <= count
      ensures Obtains(old(pool.pages[..]), pool.pages[..], old(Now()), Now())
      ensures Maps(old(Now()), Now(), va / 4096, done, pa, flags)
      ensures ok ==> count > 0 && done == count && va % 4096 == 0 && pa % 4096 == 0
      ensures !ok ==>
        (done == 0 && (count == 0 || va % 4096 != 0 || pa % 4096 != 0)) || (done < count && pool.Blocks() == [])
      ensures done > 0 ==> va % 4096 == 0 && pa % 4096 == 0
    {
      hide Tree, PagePool.Pool.Valid, Pointer, Frame, PagePool.Pool.Blocks, SameMap, Grows, Obtains, Maps, Leaf;
      ghost var s, pages := Now(), pool.pages[..];
      StillMaps(s, pages, va / 4096, pa, flags);
      ok, done := false, 0;
      if count == 0 || va % 4096 != 0 || pa % 4096 != 0 {
        return;
      }
      for cnt := 0 to count
        invariant Ok() && Grows(s, Now()) && Obtains(pages, pool.pages[..], s, Now())
          && Maps(s, Now(), va / 4096, cnt, pa, flags) && done == cnt
      {
        ghost var t, pages1 := Now(), pool.pages[..];
        var one := MapOne(va + 4096 * cnt, pa + 4096 * cnt, flags, s, va / 4096, cnt, pa);
        GrowsTrans(s, t, Now());
        ObtainsTrans(pages, pages1, pool.pages[..], s, t, Now());
        if !one {
          return;
        }
        done := cnt + 1;
      }
      ok := true;
    }

    /** The walk of `va2pa` and `unmappages`: the last-level table for an address, or -1 if there is none. */
    method Find(va: nat) returns (q: int)
      requires Ok() && va < 0x4000000000
      ensures q == -1 ==> Lookup(Now(), va / 4096) == 0
      ensures q != -1 ==> 0 <= q < |mem| && |mem[q]| == 512 && Holds(Now(), va / 4096, q)
      ensures q != -1 ==> Lookup(Now(), va / 4096) == var e := mem[q][I2(va / 4096)]; if Valid(e) then e else 0
    {
      hide Tree, PagePool.Pool.Valid, Pointer, Frame, I0, I1, I2, Lookup;
      Indices(va);
      WalkFacts(Now(), va / 4096);
      var e0 := mem[root][va / 0x40000000 % 512];
      if !Valid(e0) {
        return -1;
      }
      var e1 := mem[Frame(e0)][va / 0x200000 % 512];
      if !Valid(e1) {
        return -1;
      }
      q := Frame(e1);
    }

    /** `va2pa`: 0 if nothing is mapped there. */
    method Va2pa(va: nat) returns (pa: int)
      requires Ok() && va < 0x4000000000
      ensures pa == Translate(Now(), va)
      ensures var e := Sv39.Walk(mem, root, va); pa == if e % 2 == 0 then 0 else e / 1024 * 4096 + va % 4096
    {
      hide Tree, PagePool.Pool.Valid, Pointer, Frame, I0, I1, Lookup, Sv39.Walk;
      LookupIsWalk(Now(), va);
      Indices(va);
      InvalidZero();
      var q := Find(va);
      if q == -1 {
        return 0;
      }
      var e := mem[q][va / 4096 % 512];
      if !Valid(e) {
        return 0;
      }
      pa := Address(e) + va % 4096;
    }

    /** `unmappages`: the tables stay. */
    method Unmappages(va: nat, count: nat) returns (ok: bool)
      requires Ok() && va + 4096 * count <= 0x4000000000
      modifies `mem
      ensures Ok() && Grows(old(Now()), Now()) && (ok <==> count > 0 && va % 4096 == 0)
      ensures Clears(old(Now()), Now(), va / 4096, if ok then count else 0)
      ensures NoEntries(old(mem), mem, root, va, if ok then count else 0)
    {
      hide Tree, PagePool.Pool.Valid, Pointer, Frame, Grows, Obtains, Clears, I0, I1, I2, Lookup, NoEntries;
      ghost var s := Now();
      StillClears(s, pool.pages[..], va / 4096);
      if count == 0 || va % 4096 != 0 {
        ClearsEntries(s, s, va, 0);
        return false;
      }
      for cnt := 0 to count
        invariant Ok() && Grows(s, Now()) && Clears(s, Now(), va / 4096, cnt)
      {
        UnmapOne(va + 4096 * cnt, s, va / 4096, cnt);
      }
      ok := true;
      ClearsEntries(s, Now(), va, count);
    }

    /** One page of `unmappages`. */
    method UnmapOne(va: nat, ghost s: Space, ghost v0: nat, ghost n: nat)
      requires Ok() && va == 4096 * (v0 + n) < 0x4000000000 && Tree(s) && Clears(s, Now(), v0, n) && Grows(s, Now())
      modifies `mem
      ensures Ok() && Clears(s, Now(), v0, n + 1) && Grows(s, Now())
    {
      hide Tree, PagePool.Pool.Valid, Pointer, Frame, Grows, Obtains, Clears, I0, I1, I2, Lookup;
      MapIndices(va, v0 + n);
      ghost var t := Now();
      var q := Find(va);
      if q == -1 {
        ClearsAlready(s, t, v0, n);
      } else {
        SetClears(s, t, v0, n, q);
        Put(q, va / 4096 % 512, 0, t, pool.pages[..]) by { StillClears(t, pool.pages[..], v0); }
        GrowsTrans(s, t, Now());
      }
    }

    /** `vm_free_pages(page, 1)`. */
    method FreeOne(p: nat)
      requires pool.Valid() && p < pool.pages.Length && pool.pages[p].flag == PagePool.Used
      modifies pool, pool.pages
      ensures pool.Valid()
      ensures forall q: nat :: q < pool.pages.Length ==>
                pool.pages[..][q].flag == if q == p then PagePool.Free else old(pool.pages[..])[q].flag
    {
      hide PagePool.Pool.Valid, PagePool.Pool.Blocks, PagePool.In;
      pool.FreePages(p, 1);
    }

    /** The tables of entries `j` on of the table in page `p`, that of root entry `i`. */
    method FreeLows(p: nat, ghost i: nat, ghost was: seq<PagePool.Page>)
      requires pool.Valid() && Owned(was) && Has(Now(), p, Mid(i)) && Freed(role, was, pool.pages[..], i, 0)
      modifies pool, pool.pages
      ensures pool.Valid() && Freed(role, was, pool.pages[..], i, 512)
    {
      hide Tree, PagePool.Pool.Valid, Pointer, Frame, Freed, Has, Owned;
      for j := 0 to 512
        invariant pool.Valid() && Freed(role, was, pool.pages[..], i, j)
      {
        LowStep(p, i, j, was, pool.pages[..]);
        var e := mem[p][j];
        if Valid(e) {
          ghost var pages := pool.pages[..];
          FreeOne(Frame(e));
          LowGone(p, i, j, was, pages, pool.pages[..]);
        }
      }
    }

    /** `free_pagetable`: every table of the user half and the root, once each, and no other page. */
    method FreePagetable()
      requires Ok()
      modifies pool, pool.pages
      ensures pool.Valid()
      ensures forall q: nat :: q < pool.pages.Length ==>
                pool.pages[..][q].flag == if q in role then PagePool.Free else old(pool.pages[..])[q].flag
    {
      hide Tree, PagePool.Pool.Valid, Pointer, Frame, Freed, Has, Owned, Ok;
      ghost var was := pool.pages[..];
      FreeStart();
      for i := 0 to 256
        invariant pool.Valid() && Freed(role, was, pool.pages[..], i, 0)
      {
        MidStep(i, was, pool.pages[..]);
        var e := mem[root][i];
        if Valid(e) {
          PointerBits(Frame(e));
          if e / 2 % 2 == 0 && e / 4 % 2 == 0 && e / 8 % 2 == 0 {
            FreeLows(Frame(e), i, was);
          }
          MidUsed(i, was, pool.pages[..]);
          ghost var pages := pool.pages[..];
          FreeOne(Frame(e));
          MidGone(i, was, pages, pool.pages[..]);
        }
      }
      RootLeft(was, pool.pages[..]);
      ghost var pages := pool.pages[..];
      FreeOne(root);
      AllGone(was, pages, pool.pages[..]);
    }

    /** `was` are the pages of a pool in which this tree's tables are in use. */
    ghost predicate Owned(was: seq<PagePool.Page>)
      reads this
    {
      Tree(Now()) && |was| == |mem| == pool.pages.Length && forall p :: p in role ==>
        p < |was| && was[p].flag == PagePool.Used
    }

    lemma FreeStart()
      requires Ok()
      ensures pool.Valid() && Owned(pool.pages[..]) && Freed(role, pool.pages[..], pool.pages[..], 0, 0)
    {
    }

    lemma LowStep(p: nat, i: nat, j: nat, was: seq<PagePool.Page>, pages: seq<PagePool.Page>)
      requires Owned(was) && Has(Now(), p, Mid(i)) && Freed(role, was, pages, i, j) && j < 512
      ensures p < |mem| && |mem[p]| == 512 && |pages| == |mem| == pool.pages.Length
      ensures if Valid(mem[p][j]) then 0 <= Frame(mem[p][j]) < |pages| && pages[Frame(mem[p][j])].flag == PagePool.Used
              else Freed(role, was, pages, i, j + 1)
    {
      assert MidOk(Now(), p) && Leads(Now(), mem[p][j], Low(i, j));
      forall q | q in role && role[q] == Low(i, j) ensures Valid(mem[p][j]) {
        LowLed(Now(), p, q, i, j);
      }
      hide Tree;
    }

    lemma LowGone(p: nat, i: nat, j: nat, was: seq<PagePool.Page>, pages: seq<PagePool.Page>,
      pages': seq<PagePool.Page>)
      requires Owned(was) && Has(Now(), p, Mid(i)) && Freed(role, was, pages, i, j) && j < 512
      requires p < |mem| && |mem[p]| == 512 && Valid(mem[p][j]) && |pages'| == |pages|
      requires forall q: nat :: q < |pages| ==>
        pages'[q].flag == if q == Frame(mem[p][j]) then PagePool.Free else pages[q].flag
      ensures Freed(role, was, pages', i, j + 1)
    {
      assert MidOk(Now(), p) && Leads(Now(), mem[p][j], Low(i, j));
      forall q | q in role && role[q] == Low(i, j) ensures q == Frame(mem[p][j]) {
        NoSharing(Now(), q, Frame(mem[p][j]));
      }
      hide Tree, Frame, Valid;
    }

    lemma MidStep(i: nat, was: seq<PagePool.Page>, pages: seq<PagePool.Page>)
      requires Owned(was) && Freed(role, was, pages, i, 0) && i < 256
      ensures root < |mem| && |mem[root]| == 512
      ensures if Valid(mem[root][i]) then 0 <= Frame(mem[root][i]) && Has(Now(), Frame(mem[root][i]), Mid(i))
        && mem[root][i] == Pointer(Frame(mem[root][i]))
              else Freed(role, was, pages, i + 1, 0)
    {
      assert Leads(Now(), mem[root][i], Mid(i));
      forall q | q in role && (role[q] == Mid(i) || (role[q].Low? && role[q].i == i)) ensures Valid(mem[root][i]) {
        MidLed(Now(), q, i);
      }
      hide Tree;
    }

    lemma MidUsed(i: nat, was: seq<PagePool.Page>, pages: seq<PagePool.Page>)
      requires Owned(was) && Freed(role, was, pages, i, 512) && i < 256 && root < |mem| && |mem[root]| == 512
        && Valid(mem[root][i])
      ensures 0 <= Frame(mem[root][i]) < |pages| == pool.pages.Length
        && pages[Frame(mem[root][i])].flag == PagePool.Used
    {
      assert Leads(Now(), mem[root][i], Mid(i));
    }

    lemma MidGone(i: nat, was: seq<PagePool.Page>, pages: seq<PagePool.Page>, pages': seq<PagePool.Page>)
      requires Owned(was) && Freed(role, was, pages, i, 512) && i < 256
      requires root < |mem| && |mem[root]| == 512 && Valid(mem[root][i]) && |pages'| == |pages|
      requires forall q: nat :: q < |pages| ==>
        pages'[q].flag == if q == Frame(mem[root][i]) then PagePool.Free else pages[q].flag
      ensures Freed(role, was, pages', i + 1, 0)
    {
      var p := Frame(mem[root][i]);
      assert Leads(Now(), mem[root][i], Mid(i));
      forall q | q in role ensures (role[q] == Mid(i) ==> q == p) && (role[q].Low? ==> role[q].j < 512) {
        RoleBounds(Now(), q);
        if role[q] == Mid(i) {
          NoSharing(Now(), q, p);
        }
      }
      hide Tree, Frame, Valid;
    }

    lemma RootLeft(was: seq<PagePool.Page>, pages: seq<PagePool.Page>)
      requires Owned(was) && Freed(role, was, pages, 256, 0)
      ensures root < |pages| == pool.pages.Length && pages[root].flag == PagePool.Used
    {
    }

    lemma AllGone(was: seq<PagePool.Page>, pages: seq<PagePool.Page>, pages': seq<PagePool.Page>)
      requires Owned(was) && Freed(role, was, pages, 256, 0) && |pages'| == |pages|
      requires forall q: nat :: q < |pages| ==> pages'[q].flag == if q == root then PagePool.Free else pages[q].flag
      ensures forall q: nat :: q < |pages| ==> pages'[q].flag == if q in role then PagePool.Free else was[q].flag
    {
      RootIn(Now());
      forall q | q in role && q != root ensures Gone(role[q], 256, 0) {
        RoleBounds(Now(), q);
      }
      hide Tree;
    }
  }

  /** The tables that `free_pagetable` has freed when it comes to entry `j` of the table of root entry `i`. */
  ghost predicate Gone(r: Role, i: nat, j: nat) {
    match r
    case Root => false
    case Mid(a) => a < i
    case Low(a, b) => a < i || (a == i && b < j)
  }

  ghost predicate Freed(role: map<nat, Role>, was: seq<PagePool.Page>, pages: seq<PagePool.Page>, i: nat, j: nat) {
    && |pages| == |was|
    && forall q: nat :: q < |was| ==>
      pages[q].flag == if q in role && Gone(role[q], i, j) then PagePool.Free else was[q].flag
  }

  lemma PointerBits(p: nat)
    ensures Pointer(p) / 2 % 2 == 0 && Pointer(p) / 4 % 2 == 0 && Pointer(p) / 8 % 2 == 0
  {
    var x := BASE + p;
    assert Pointer(p) / 2 == 512 * x && Pointer(p) / 4 == 256 * x && Pointer(p) / 8 == 128 * x;
  }

  lemma RoleBounds(s: Space, q: nat)
    requires Tree(s) && q in s.role
    ensures match s.role[q] case Root => q == s.root case Mid(i) => i < 256 case Low(i, j) => i < 256 && j < 512
  {
  }

  lemma LowLed(s: Space, p: nat, q: nat, i: nat, j: nat)
    requires Tree(s) && Has(s, p, Mid(i)) && q in s.role && s.role[q] == Low(i, j)
    ensures |s.mem[p]| == 512 && j < 512 && Valid(s.mem[p][j])
  {
    assert LowOk(s, q);
    var e := s.mem[s.root][i];
    NoSharing(s, p, Frame(e));
    PointerFrame(q);
  }

  lemma MidLed(s: Space, q: nat, i: nat)
    requires Tree(s) && q in s.role && (s.role[q] == Mid(i) || (s.role[q].Low? && s.role[q].i == i))
    ensures i < 256 && s.root < |s.mem| && |s.mem[s.root]| == 512 && Valid(s.mem[s.root][i])
  {
    if s.role[q] == Mid(i) {
      assert MidOk(s, q);
      PointerFrame(q);
    } else {
      assert LowOk(s, q);
    }
  }

  /** What the walk for page number `v` reads. */
  lemma WalkFacts(s: Space, v: nat)
    requires Tree(s) && I0(v) < 256
    ensures s.root < |s.mem| && |s.mem[s.root]| == 512
    ensures var e0 := s.mem[s.root][I0(v)];
            if !Valid(e0) then Lookup(s, v) == 0
            else 0 <= Frame(e0) < |s.mem| && |s.mem[Frame(e0)]| == 512 &&
                 var e1 := s.mem[Frame(e0)][I1(v)];
                 if !Valid(e1) then Lookup(s, v) == 0
                 else 0 <= Frame(e1) < |s.mem| && |s.mem[Frame(e1)]| == 512 && Holds(s, v, Frame(e1))
                      && Lookup(s, v) == var e2 := s.mem[Frame(e1)][I2(v)]; if Valid(e2) then e2 else 0
  {
    hide Pointer, Frame, Valid, I0, I1, I2;
    var e0 := s.mem[s.root][I0(v)];
    assert Leads(s, e0, Mid(I0(v)));
    if Valid(e0) {
      assert MidOk(s, Frame(e0));
      assert Leads(s, s.mem[Frame(e0)][I1(v)], Low(I0(v), I1(v)));
    }
  }

  /** The flat map is what the processor sees. */
  lemma LookupIsWalk(s: Space, va: nat)
    requires Tree(s) && va < 0x4000000000
    ensures I0(va / 4096) < 256 && Sv39.Walk(s.mem, s.root, va) == Lookup(s, va / 4096)
  {
    hide Tree, Lookup, I0, I1, I2;
    Indices(va);
    WalkFacts(s, va / 4096);
  }

  /** After `mappages`, the processor finds the pages with the flags asked for and the valid bit; for every other
      address it finds what it found before. */
  ghost predicate Entries(was: Memory, mem: Memory, root: nat, va: nat, n: nat, pa: nat, flags: nat) {
    forall x: nat :: x < 0x4000000000 ==>
      if va <= x < va + 4096 * n
      then Sv39.LeadsTo(Sv39.Walk(mem, root, x), pa + (x - va), if flags % 2 == 0 then flags + 1 else flags)
      else Sv39.Walk(mem, root, x) == Sv39.Walk(was, root, x)
  }

  lemma LeafBits(pa: nat, flags: nat)
    requires flags < 1024
    ensures Leaf(pa, flags) % 1024 == (if flags % 2 == 0 then flags + 1 else flags)
      && Leaf(pa, flags) / 1024 == pa / 4096
  {
    var b := if flags % 2 == 0 then flags + 1 else flags;
    assert b < 1024;
    assert (pa / 4096 * 1024 + b) / 1024 == pa / 4096;
  }

  lemma MapsEntries(s: Space, t: Space, va: nat, n: nat, pa: nat, flags: nat)
    requires Tree(s) && Tree(t) && t.root == s.root && Maps(s, t, va / 4096, n, pa, flags) && flags < 1024
    requires n > 0 ==> va % 4096 == 0 && pa % 4096 == 0
    ensures Entries(s.mem, t.mem, s.root, va, n, pa, flags)
  {
    hide Tree, Lookup, I0, Leaf, Sv39.Walk, Sv39.LeadsTo, Maps;
    forall x: nat | x < 0x4000000000
      ensures I0(x / 4096) < 256 && Sv39.Walk(s.mem, s.root, x) == Lookup(s, x / 4096)
      ensures if va <= x < va + 4096 * n
              then Sv39.LeadsTo(Sv39.Walk(t.mem, s.root, x), pa + (x - va), if flags % 2 == 0 then flags + 1 else flags)
              else Sv39.Walk(t.mem, s.root, x) == Lookup(s, x / 4096)
    {
      LookupIsWalk(s, x);
      LookupIsWalk(t, x);
      MapsAddress(s, t, va, n, pa, flags, x);
    }
  }

  lemma MapsAddress(s: Space, t: Space, va: nat, n: nat, pa: nat, flags: nat, x: nat)
    requires Tree(s) && Tree(t) && Maps(s, t, va / 4096, n, pa, flags) && flags < 1024 && I0(x / 4096) < 256
    requires n > 0 ==> va % 4096 == 0 && pa % 4096 == 0
    ensures if va <= x < va + 4096 * n
            then Sv39.LeadsTo(Lookup(t, x / 4096), pa + (x - va), if flags % 2 == 0 then flags + 1 else flags)
            else Lookup(t, x / 4096) == Lookup(s, x / 4096)
  {
    hide *;
    MapsAt(s, t, va / 4096, n, pa, flags, x / 4096);
    if n > 0 {
      PageOf(va, n, x);
      if va <= x < va + 4096 * n {
        LeafLeads(va, x, pa, flags);
      }
    }
  }

  lemma MapsAt(s: Space, t: Space, v0: nat, n: nat, pa: nat, flags: nat, v: nat)
    requires Tree(s) && Tree(t) && Maps(s, t, v0, n, pa, flags) && I0(v) < 256
    ensures Lookup(t, v) == if v0 <= v < v0 + n then Leaf(pa + 4096 * (v - v0), flags) else Lookup(s, v)
  {
    hide Tree, Lookup, I0, Leaf;
  }

  lemma LeafLeads(va: nat, x: nat, pa: nat, flags: nat)
    requires va % 4096 == 0 && pa % 4096 == 0 && va / 4096 <= x / 4096 && flags < 1024 && va <= x
    ensures Sv39.LeadsTo(Leaf(pa + 4096 * (x / 4096 - va / 4096), flags), pa + (x - va),
                         if flags % 2 == 0 then flags + 1 else flags)
  {
    var w := x / 4096 - va / 4096;
    LeafBits(pa + 4096 * w, flags);
    hide Leaf;
    assert pa == 4096 * (pa / 4096) && x - va == 4096 * w + x % 4096;
    assert (pa + 4096 * w) / 4096 == pa / 4096 + w && (pa + (x - va)) / 4096 == pa / 4096 + w;
  }

  lemma PageOf(va: nat, n: nat, x: nat)
    requires va % 4096 == 0
    ensures va <= x < va + 4096 * n <==> va / 4096 <= x / 4096 < va / 4096 + n
    ensures x - va == 4096 * (x / 4096 - va / 4096) + x % 4096
  {
  }

  /** After `unmappages`, the processor finds nothing in the range. */
  ghost predicate NoEntries(was: Memory, mem: Memory, root: nat, va: nat, n: nat) {
    forall x: nat :: x < 0x4000000000 ==>
      Sv39.Walk(mem, root, x) == if va <= x < va + 4096 * n then 0 else Sv39.Walk(was, root, x)
  }

  lemma ClearsAt(s: Space, t: Space, v0: nat, n: nat, v: nat)
    requires Tree(s) && Tree(t) && Clears(s, t, v0, n)
    ensures I0(v) < 256 ==> Lookup(t, v) == if v0 <= v < v0 + n then 0 else Lookup(s, v)
  {
    hide Tree, Lookup, I0;
  }

  lemma ClearsEntries(s: Space, t: Space, va: nat, n: nat)
    requires Tree(s) && Tree(t) && t.root == s.root && Clears(s, t, va / 4096, n) && (n > 0 ==> va % 4096 == 0)
    ensures NoEntries(s.mem, t.mem, s.root, va, n)
  {
    forall x: nat | x < 0x4000000000
      ensures Sv39.Walk(t.mem, s.root, x) == if va <= x < va + 4096 * n then 0 else Sv39.Walk(s.mem, s.root, x)
    {
      hide Tree, Lookup, I0, Sv39.Walk, Clears;
      ClearsAt(s, t, va / 4096, n, x / 4096);
      LookupIsWalk(s, x);
      LookupIsWalk(t, x);
      if n > 0 {
        PageOf(va, n, x);
      }
    }
  }

  /** The physical address that the flat map gives for an address. */
  ghost function Translate(s: Space, va: nat): (pa: int)
    requires Tree(s) && va < 0x4000000000
  {
    assert I0(va / 4096) < 256;
    var e := Lookup(s, va / 4096);
    if Valid(e) then Address(e) + va % 4096 else 0
  }

  /** Page numbers from `v0` on, `n` of them, lead nowhere; all others lead where they led. */
  ghost predicate Clears(s: Space, t: Space, v0: nat, n: nat)
    requires Tree(s) && Tree(t)
  {
    forall v: nat :: I0(v) < 256 ==> Lookup(t, v) == if v0 <= v < v0 + n then 0 else Lookup(s, v)
  }

  lemma StillClears(s: Space, pages: seq<PagePool.Page>, v: nat)
    requires Tree(s)
    ensures Grows(s, s) && Obtains(pages, pages, s, s) && Clears(s, s, v, 0)
  {
  }

  lemma ClearsAlready(s: Space, t: Space, v0: nat, n: nat)
    requires Tree(s) && Tree(t) && Clears(s, t, v0, n) && I0(v0 + n) < 256 && Lookup(t, v0 + n) == 0
    ensures Clears(s, t, v0, n + 1)
  {
    hide Lookup, Tree, I0;
  }

  lemma SetClears(s: Space, t: Space, v0: nat, n: nat, q: nat)
    requires Tree(s) && Tree(t) && Clears(s, t, v0, n) && I0(v0 + n) < 256 && Holds(t, v0 + n, q)
    ensures Tree(SetEntry(t, q, I2(v0 + n), 0)) && Clears(s, SetEntry(t, q, I2(v0 + n), 0), v0, n + 1)
  {
    hide Lookup, Tree, Valid, I0, I1, I2, SetEntry;
    InvalidZero();
    SetEntryTree(t, q, I2(v0 + n), 0);
    forall v: nat | I0(v) < 256
      ensures Lookup(SetEntry(t, q, I2(v0 + n), 0), v) == if v0 <= v < v0 + n + 1 then 0 else Lookup(s, v)
    {
      SetEntryLookup(t, v0 + n, q, 0, v);
    }
  }

  /** After `mappages`, `va2pa` gives the address in the mapped pages, and elsewhere what it gave before. */
  lemma MappedTranslates(s: Space, t: Space, va: nat, count: nat, pa: nat, flags: nat, x: nat)
    requires Tree(s) && Tree(t) && Maps(s, t, va / 4096, count, pa, flags) && x < 0x4000000000
    requires va % 4096 == 0 && pa % 4096 == 0 && flags < 1024
    ensures Translate(t, x) == if va <= x < va + 4096 * count then pa + (x - va) else Translate(s, x)
  {
    assert I0(x / 4096) < 256;
    var v, w, r := va / 4096, x / 4096, x % 4096;
    assert x == 4096 * w + r && va == 4096 * v && (va <= x < va + 4096 * count <==> v <= w < v + count);
    hide Lookup, Tree, Leaf, Address, Valid, I0;
    if v <= w < v + count {
      MappedAt(s, t, v, count, pa, flags, w);
    } else {
      assert Lookup(t, w) == Lookup(s, w);
    }
  }

  lemma MappedAt(s: Space, t: Space, v: nat, count: nat, pa: nat, flags: nat, w: nat)
    requires Tree(s) && Tree(t) && Maps(s, t, v, count, pa, flags) && I0(w) < 256 && v <= w < v + count
      && pa % 4096 == 0 && flags < 1024
    ensures Valid(Lookup(t, w)) && Address(Lookup(t, w)) == pa + 4096 * (w - v)
  {
    hide Lookup, Tree, Leaf, Address, Valid, I0;
    Aligned(pa, w - v);
    LeafAddress(pa + 4096 * (w - v), flags);
    assert Lookup(t, w) == Leaf(pa + 4096 * (w - v), flags);
  }

  lemma Aligned(pa: nat, k: nat)
    requires pa % 4096 == 0
    ensures (pa + 4096 * k) % 4096 == 0
  {
    assert pa + 4096 * k == 4096 * (pa / 4096 + k);
  }

  /** After `unmappages`, `va2pa` finds nothing in the range, and elsewhere what it found before. */
  lemma UnmappedTranslates(s: Space, t: Space, va: nat, count: nat, x: nat)
    requires Tree(s) && Tree(t) && Clears(s, t, va / 4096, count) && x < 0x4000000000 && va % 4096 == 0
    ensures Translate(t, x) == if va <= x < va + 4096 * count then 0 else Translate(s, x)
  {
    InvalidZero();
    assert I0(x / 4096) < 256;
    hide Lookup, Tree, Address, Valid, I0;
  }

  lemma MapIndices(va: nat, v: nat)
    requires va == 4096 * v < 0x4000000000
    ensures va / 4096 == v && I0(v) < 256 && va / 4096 % 512 == I2(v)
  {
  }

  lemma HasIs(s: Space, q: int, v: nat)
    requires Has(s, q, Low(I0(v), I1(v)))
    ensures q >= 0 && Holds(s, v, q) && q in s.role && s.role[q].Low?
  {
  }

  lemma HasSome(s: Space, p: int, r: Role)
    requires Has(s, p, r)
    ensures p >= 0
  {
  }

  lemma SameTrans(s: Space, t: Space, u: Space)
    requires Tree(s) && Tree(t) && Tree(u) && SameMap(s, t) && SameMap(t, u)
    ensures SameMap(s, u)
  {
    hide Lookup, Tree;
  }

  lemma SetGrows(s: Space, t: Space, q: nat, k: nat, e: int, pages: seq<PagePool.Page>, pages': seq<PagePool.Page>)
    requires Tree(t) && q in t.role && k < 512 && Grows(s, t)
    ensures Grows(s, SetEntry(t, q, k, e))
    ensures Obtains(pages, pages', s, t) ==> Obtains(pages, pages', s, SetEntry(t, q, k, e))
  {
  }

  lemma LowShape(s: Space, q: nat)
    requires Tree(s) && q in s.role
    ensures q < |s.mem| && |s.mem[q]| == 512
  {
  }

  lemma StillMaps(s: Space, pages: seq<PagePool.Page>, v: nat, pa: nat, flags: nat)
    requires Tree(s)
    ensures Grows(s, s) && Obtains(pages, pages, s, s) && Maps(s, s, v, 0, pa, flags)
  {
  }

  ghost predicate HasEntry(s: Space, p: nat, k: nat) { p < |s.mem| && k < |s.mem[p]| && Valid(s.mem[p][k]) }

  /** One page joined the tree. */
  lemma ObtainsOne(pages: seq<PagePool.Page>, pages': seq<PagePool.Page>, s: Space, t: Space, p: nat, r: Role)
    requires |pages'| == |pages| && t.role == s.role[p := r] && p !in s.role && p < |pages|
      && pages[p].flag == PagePool.Free
    requires forall q: nat :: q < |pages| ==> pages'[q].flag == if q == p then PagePool.Used else pages[q].flag
    ensures Obtains(pages, pages', s, t)
  {
  }

  lemma Still(s: Space, pages: seq<PagePool.Page>)
    requires Tree(s)
    ensures SameMap(s, s) && Grows(s, s) && Obtains(pages, pages, s, s)
  {
  }
}
