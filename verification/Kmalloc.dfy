/** The allocator of kmalloc.c: small requests go to the block list, large ones to the page pool, with a record in
    a small block. Addresses count units of 16 bytes, 256 to a page, and 0 is the null pointer. */
module Kmalloc {
  import opened FreeRing
  import opened Tiles
  import PagePool
  import Slob

  /** `align8`. */
  function Align8(size: nat): (r: nat)
    ensures r % 8 == 0 && size <= r < size + 8
  {
    if size % 8 == 0 then size else (size / 8 + 1) * 8
  }

  /** `get_page_n`. */
  function PageCount(size: nat): (n: nat)
    ensures 4096 * n - 4096 < size <= 4096 * n
  {
    if size % 4096 == 0 then size / 4096 else size / 4096 + 1
  }

  /** A record of the big-block list: its own address, the first page and the number of pages. */
  datatype Rec = Rec(at: nat, page: nat, n: nat) {
    predicate Has(q: int) { page <= q < page + n }
  }

  // ---------------------------------------------------------------- the state as a value

  datatype State = State(w: Words, live: Tiling, own: set<nat>, big: seq<Rec>, head: nat, pages: seq<PagePool.Page>,
    first: nat)

  ghost predicate IsRec(big: seq<Rec>, p: nat) { exists i :: 0 <= i < |big| && big[i].at == p }

  /** The address of the `i`th record; null after the last. */
  function Link(big: seq<Rec>, i: nat): (a: nat) { if i < |big| then big[i].at else 0 }

  /** The words of the `i`th record, the first two in the place of the header of its block. */
  ghost predicate Holds(w: Words, big: seq<Rec>, i: nat)
    requires i < |big|
  {
    && WordsOk(w) && 0 < big[i].at && big[i].at + 1 < |w.unitN|
    && w.unitN[big[i].at] == big[i].n && w.next[big[i].at] == 256 * big[i].page
      && w.unitN[big[i].at + 1] == Link(big, i + 1)
  }

  /** The list from `head` is `big`, each record in a live block of two units. */
  ghost predicate Chained(s: State) {
    && s.head == Link(s.big, 0)
    && (forall i :: 0 <= i < |s.big| ==> Holds(s.w, s.big, i) && s.big[i].at in s.live && s.live[s.big[i].at] == 2)
    && (forall i, j :: 0 <= i < j < |s.big| ==> s.big[i].at != s.big[j].at)
  }

  ghost predicate BigOk(b: Rec, pages: seq<PagePool.Page>, own: set<nat>, first: nat) {
    && b.n >= 1 && first <= b.page && b.page + b.n <= |pages|
    && forall q: nat :: b.Has(q) ==> pages[q].flag == PagePool.Used && q !in own
  }

  ghost predicate Apart(a: Rec, b: Rec) { a.page + a.n <= b.page || b.page + b.n <= a.page }

  /** Big blocks hold pages in use that are neither each other's nor the small blocks'. */
  ghost predicate BigApart(s: State) {
    && (forall i :: 0 <= i < |s.big| ==> BigOk(s.big[i], s.pages, s.own, s.first))
    && (forall i, j :: 0 <= i < j < |s.big| ==> Apart(s.big[i], s.big[j]))
  }

  /** All live blocks but the records, and but `but`, still have their lengths in their headers. */
  ghost predicate Headers(s: State, but: int) {
    WordsOk(s.w) && forall p :: p in s.live ==>
      p < |s.w.unitN| && s.live[p] >= 2 && (p == but || IsRec(s.big, p) || s.w.unitN[p] == s.live[p])
  }

  ghost predicate Ok(s: State, but: int) { Chained(s) && BigApart(s) && Headers(s, but) }

  ghost predicate Agree(w: Words, w': Words, u: nat)
    requires WordsOk(w) && WordsOk(w') && u < |w.unitN| == |w'.unitN|
  {
    w'.unitN[u] == w.unitN[u] && w'.next[u] == w.next[u]
  }

  ghost predicate AgreeOn(w: Words, w': Words, live: Tiling) {
    WordsOk(w) && WordsOk(w') && |w'.unitN| == |w.unitN|
    && forall a, u: nat :: InTile(live, a, u) && u < |w.unitN| ==> Agree(w, w', u)
  }

  // ---------------------------------------------------------------- what keeps the state

  /** Only the words of live blocks matter. */
  lemma WordsKeep(s: State, but: int, w': Words)
    requires Ok(s, but) && AgreeOn(s.w, w', s.live)
    ensures Ok(s.(w := w'), but)
  {
    forall i | 0 <= i < |s.big| ensures Holds(w', s.big, i) {
      RecordKept(s, w', i);
    }
    forall p | p in s.live ensures p < |w'.unitN| && w'.unitN[p] == s.w.unitN[p] {
      HeaderKept(s, but, w', p);
    }
    hide Holds, AgreeOn, IsRec, BigApart;
  }

  lemma RecordKept(s: State, w': Words, i: nat)
    requires Chained(s) && AgreeOn(s.w, w', s.live) && i < |s.big|
    ensures Holds(w', s.big, i)
  {
    assert Holds(s.w, s.big, i);
    assert InTile(s.live, s.big[i].at, s.big[i].at) && InTile(s.live, s.big[i].at, s.big[i].at + 1);
    assert Agree(s.w, w', s.big[i].at) && Agree(s.w, w', s.big[i].at + 1);
  }

  lemma HeaderKept(s: State, but: int, w': Words, p: nat)
    requires Headers(s, but) && AgreeOn(s.w, w', s.live) && p in s.live
    ensures p < |w'.unitN| && w'.unitN[p] == s.w.unitN[p]
  {
    assert InTile(s.live, p, p);
    assert Agree(s.w, w', p);
  }

  /** A block more. */
  lemma BlockAdded(s: State, p: nat, n: nat)
    requires Ok(s, -1) && p !in s.live && n >= 2 && p < |s.w.unitN| && s.w.unitN[p] == n
    ensures Ok(s.(live := s.live[p := n]), -1)
  {
  }

  /** A block less. */
  lemma BlockGone(s: State, p: nat)
    requires Ok(s, p) && !IsRec(s.big, p)
    ensures Ok(s.(live := s.live - {p}), -1)
  {
    hide Holds, BigOk, Apart;
    forall i | 0 <= i < |s.big| ensures s.big[i].at != p {
    }
  }

  /** The small allocator has a page more, which was free. */
  lemma PageObtained(s: State, but: int, own': set<nat>, pages': seq<PagePool.Page>)
    requires Ok(s, but) && Slob.Obtained(s.pages, pages', s.own, own')
    ensures Ok(s.(own := own', pages := pages'), but)
  {
    forall i | 0 <= i < |s.big| ensures BigOk(s.big[i], pages', own', s.first) {
      assert BigOk(s.big[i], s.pages, s.own, s.first);
    }
  }

  /** Pages that were free are in use now. */
  lemma PagesTaken(s: State, but: int, page: nat, n: nat, pages': seq<PagePool.Page>)
    requires Ok(s, but) && |pages'| == |s.pages| && page + n <= |s.pages|
    requires forall q: nat :: q < |s.pages| ==>
      pages'[q].flag == if page <= q < page + n then PagePool.Used else s.pages[q].flag
    ensures Ok(s.(pages := pages'), but)
  {
    forall i | 0 <= i < |s.big| ensures BigOk(s.big[i], pages', s.own, s.first) {
      assert BigOk(s.big[i], s.pages, s.own, s.first);
    }
  }

  /** Pages of no listed block are free now. */
  lemma PagesFreed(s: State, but: int, b: Rec, pages': seq<PagePool.Page>)
    requires Ok(s, but) && |pages'| == |s.pages| && forall i :: 0 <= i < |s.big| ==> Apart(s.big[i], b)
    requires forall q: nat :: q < |s.pages| ==> pages'[q].flag == if b.Has(q) then PagePool.Free else s.pages[q].flag
    ensures Ok(s.(pages := pages'), but)
  {
    forall i | 0 <= i < |s.big| ensures BigOk(s.big[i], pages', s.own, s.first) {
      assert BigOk(s.big[i], s.pages, s.own, s.first) && Apart(s.big[i], b);
    }
  }

  /** What is written into a live block that is no record loses at most its own header. */
  lemma BlockWritten(s: State, but: int, p: nat, w': Words)
    requires Ok(s, but) && (but == -1 || but == p) && p in s.live && !IsRec(s.big, p) && Tiled(s.live)
    requires WordsOk(w') && |w'.unitN| == |s.w.unitN|
    requires forall u: nat :: u < |w'.unitN| && !InTile(s.live, p, u) ==> Agree(s.w, w', u)
    ensures Ok(s.(w := w'), p)
    ensures w'.unitN[p] == s.live[p] ==> Ok(s.(w := w'), -1)
  {
    var v := s.w.(unitN := w'.unitN);
    var rest := s.live - {p};
    forall a, u: nat | InTile(rest, a, u) && u < |w'.unitN| ensures Agree(s.w, w', u) {
      assert InTile(s.live, a, u);
    }
    assert Ok(s, p);
    BlockGone(s, p);
    WordsKeep(s.(live := rest), -1, w');
    BlockBack(s.(w := w'), p);
  }

  lemma BlockBack(s: State, p: nat)
    requires Ok(s.(live := s.live - {p}), -1) && p in s.live && s.live[p] >= 2 && p < |s.w.unitN| && !IsRec(s.big, p)
    ensures Ok(s, p) && (s.w.unitN[p] == s.live[p] ==> Ok(s, -1))
  {
    var t := s.(live := s.live - {p});
    hide Holds, BigOk, Apart;
    forall i | 0 <= i < |s.big| ensures s.big[i].at != p && s.big[i].at in t.live
      && t.live[s.big[i].at] == s.live[s.big[i].at] {
    }
    forall a | a in s.live && a != p ensures a < |s.w.unitN| && s.live[a] >= 2
      && (IsRec(s.big, a) || s.w.unitN[a] == s.live[a]) {
      assert a in t.live;
    }
    hide IsRec;
  }

  // ---------------------------------------------------------------- the list of records

  /** A record in front of the list. */
  lemma Pushed(s: State, r: nat, page: nat, n: nat)
    requires Ok(s, r) && !IsRec(s.big, r) && r in s.live && s.live[r] == 2 && 0 < r && r + 1 < |s.w.unitN|
    requires s.w.unitN[r] == n && s.w.next[r] == 256 * page && s.w.unitN[r + 1] == s.head
    requires BigOk(Rec(r, page, n), s.pages, s.own, s.first) && forall i :: 0 <= i < |s.big| ==>
      Apart(Rec(r, page, n), s.big[i])
    ensures Ok(s.(big := [Rec(r, page, n)] + s.big, head := r), -1)
  {
    hide Chained, BigApart, IsRec;
    PushedChained(s, Rec(r, page, n));
    PushedApart(s, Rec(r, page, n));
    forall p: nat ensures IsRec([Rec(r, page, n)] + s.big, p) <==> IsRec(s.big, p) || p == r {
      PushedRec(s.big, Rec(r, page, n), p);
    }
  }

  lemma PushedAt(big: seq<Rec>, b: Rec, i: nat)
    requires i <= |big|
    ensures ([b] + big)[i] == if i == 0 then b else big[i - 1]
  {
  }

  lemma PushedHolds(s: State, b: Rec, i: nat)
    requires Chained(s) && WordsOk(s.w) && 0 < b.at && b.at + 1 < |s.w.unitN| && i <= |s.big|
    requires s.w.unitN[b.at] == b.n && s.w.next[b.at] == 256 * b.page && s.w.unitN[b.at + 1] == s.head
    ensures Holds(s.w, [b] + s.big, i)
  {
    PushedAt(s.big, b, i);
    if i < |s.big| { PushedAt(s.big, b, i + 1); }
    if i > 0 {
      HoldsAt(s, i - 1);
    }
  }

  lemma PushedChained(s: State, b: Rec)
    requires Chained(s) && WordsOk(s.w) && !IsRec(s.big, b.at) && b.at in s.live && s.live[b.at] == 2 && 0 < b.at
      && b.at + 1 < |s.w.unitN|
    requires s.w.unitN[b.at] == b.n && s.w.next[b.at] == 256 * b.page && s.w.unitN[b.at + 1] == s.head
    ensures Chained(s.(big := [b] + s.big, head := b.at))
  {
    hide Holds;
    var big' := [b] + s.big;
    forall i | 0 <= i < |big'| ensures Holds(s.w, big', i) && big'[i] == if i == 0 then b else s.big[i - 1] {
      PushedHolds(s, b, i);
      PushedAt(s.big, b, i);
    }
    assert forall j :: 0 <= j < |s.big| ==> s.big[j].at != b.at;
    hide IsRec;
  }

  lemma PushedApart(s: State, b: Rec)
    requires BigApart(s) && BigOk(b, s.pages, s.own, s.first) && forall i :: 0 <= i < |s.big| ==> Apart(b, s.big[i])
    ensures BigApart(s.(big := [b] + s.big, head := b.at))
  {
    hide BigOk, Apart;
    var big' := [b] + s.big;
    forall i | 0 <= i < |big'| ensures big'[i] == if i == 0 then b else s.big[i - 1] {
      PushedAt(s.big, b, i);
    }
  }

  lemma PushedRec(big: seq<Rec>, b: Rec, p: nat)
    ensures IsRec([b] + big, p) <==> IsRec(big, p) || p == b.at
  {
    var big' := [b] + big;
    assert big'[0] == b;
    if IsRec(big, p) {
      var i :| 0 <= i < |big| && big[i].at == p;
      assert big'[i + 1].at == p;
    }
  }

  function Cut(big: seq<Rec>, i: nat): (r: seq<Rec>)
    requires i < |big|
    ensures |r| == |big| - 1
  {
    big[..i] + big[i + 1..]
  }

  lemma CutAt(big: seq<Rec>, i: nat, k: nat)
    requires i < |big| && k < |big| - 1
    ensures Cut(big, i)[k] == big[if k < i then k else k + 1]
  {
  }

  lemma CutRec(big: seq<Rec>, i: nat, p: nat)
    requires i < |big| && forall i, j :: 0 <= i < j < |big| ==> big[i].at != big[j].at
    ensures IsRec(Cut(big, i), p) <==> IsRec(big, p) && p != big[i].at
  {
    var r := Cut(big, i);
    hide Cut;
    if IsRec(big, p) && p != big[i].at {
      var k :| 0 <= k < |big| && big[k].at == p;
      CutAt(big, i, if k < i then k else k - 1);
      assert r[if k < i then k else k - 1].at == p;
    }
    if IsRec(r, p) {
      var k :| 0 <= k < |r| && r[k].at == p;
      CutAt(big, i, k);
      assert big[if k < i then k else k + 1].at == p;
    }
  }

  /** The words after the `i`th record was taken off the list. */
  function Skipped(w: Words, big: seq<Rec>, i: nat): (r: Words)
    requires WordsOk(w) && i < |big| && (i > 0 ==> big[i - 1].at + 1 < |w.unitN|)
    ensures WordsOk(r) && |r.unitN| == |w.unitN|
  {
    if i == 0 then w else w.(unitN := w.unitN[big[i - 1].at + 1 := Link(big, i + 1)])
  }

  lemma SkippedHolds(s: State, i: nat, k: nat)
    requires Chained(s) && WordsOk(s.w) && Tiled(s.live) && i < |s.big| && k < |s.big| - 1
    ensures i > 0 ==> s.big[i - 1].at + 1 < |s.w.unitN|
    ensures Holds(Skipped(s.w, s.big, i), Cut(s.big, i), k)
  {
    hide Cut, Chained;
    var j := if k < i then k else k + 1;
    CutAt(s.big, i, k);
    if k + 1 < |s.big| - 1 { CutAt(s.big, i, k + 1); }
    HoldsAt(s, j);
    HoldsAt(s, i);
    if i > 0 {
      HoldsAt(s, i - 1);
      if j != i - 1 {
        RecsApart(s, j, i - 1);
      }
    }
  }

  lemma HoldsAt(s: State, i: nat)
    requires Chained(s) && i < |s.big|
    ensures Holds(s.w, s.big, i)
  {
  }

  lemma RecsApart(s: State, i: nat, j: nat)
    requires Chained(s) && Tiled(s.live) && i < |s.big| && j < |s.big| && i != j
    ensures s.big[i].at + 2 <= s.big[j].at || s.big[j].at + 2 <= s.big[i].at
  {
    hide Holds;
    assert s.big[i].at in s.live && s.big[j].at in s.live;
  }

  /** Taking the `i`th record off the list. */
  lemma OffList(s: State, i: nat)
    requires Ok(s, -1) && Tiled(s.live) && i < |s.big|
    ensures WordsOk(s.w) && (i > 0 ==> s.big[i - 1].at + 1 < |s.w.unitN|)
    ensures Ok(s.(w := Skipped(s.w, s.big, i), big := Cut(s.big, i), head := if i == 0 then Link(s.big, 1)
      else s.head), s.big[i].at)
    ensures !IsRec(Cut(s.big, i), s.big[i].at)
    ensures forall k :: 0 <= k < |s.big| - 1 ==> Apart(Cut(s.big, i)[k], s.big[i])
  {
    hide BigOk, Apart, Cut, IsRec, Skipped, Holds;
    UnlinkedChained(s, i);
    UnlinkedApart(s, i);
    forall p: nat ensures IsRec(Cut(s.big, i), p) <==> IsRec(s.big, p) && p != s.big[i].at {
      CutRec(s.big, i, p);
    }
    SkippedHeaders(s, i);
    hide Chained;
  }

  lemma UnlinkedChained(s: State, i: nat)
    requires Chained(s) && WordsOk(s.w) && Tiled(s.live) && i < |s.big|
    ensures i > 0 ==> s.big[i - 1].at + 1 < |s.w.unitN|
    ensures Chained(s.(w := Skipped(s.w, s.big, i), big := Cut(s.big, i), head := if i == 0 then Link(s.big, 1)
      else s.head))
  {
    hide Cut, Holds, Skipped;
    var big' := Cut(s.big, i);
    if i > 0 { UnlinkedBound(s, i); }
    if |big'| > 0 { CutAt(s.big, i, 0); }
    forall k | 0 <= k < |big'| ensures Holds(Skipped(s.w, s.big, i), big', k)
      && big'[k] == s.big[if k < i then k else k + 1] {
      SkippedHolds(s, i, k);
      CutAt(s.big, i, k);
    }
  }

  lemma UnlinkedBound(s: State, i: nat)
    requires Chained(s) && 0 < i < |s.big|
    ensures s.big[i - 1].at + 1 < |s.w.unitN|
  {
    HoldsAt(s, i - 1);
  }

  lemma UnlinkedApart(s: State, i: nat)
    requires BigApart(s) && i < |s.big|
    ensures BigApart(s.(big := Cut(s.big, i)))
    ensures forall k :: 0 <= k < |s.big| - 1 ==> Apart(Cut(s.big, i)[k], s.big[i])
  {
    hide BigOk, Cut;
    var big' := Cut(s.big, i);
    forall k | 0 <= k < |big'| ensures big'[k] == s.big[if k < i then k else k + 1] {
      CutAt(s.big, i, k);
    }
  }

  lemma SkippedHeaders(s: State, i: nat)
    requires Ok(s, -1) && Tiled(s.live) && i < |s.big|
    ensures WordsOk(s.w) && (i > 0 ==> s.big[i - 1].at + 1 < |s.w.unitN|)
    ensures forall p :: p in s.live ==>
      p < |s.w.unitN| && (IsRec(s.big, p) || Skipped(s.w, s.big, i).unitN[p] == s.live[p])
  {
    if i > 0 {
      var r := s.big[i - 1].at;
      assert Holds(s.w, s.big, i - 1);
      assert r in s.live && s.live[r] == 2;
      assert r + 1 !in s.live;
    }
  }

  // ---------------------------------------------------------------- the allocator's steps

  /** The small blocks of callers, header included: the live blocks that are no records. */
  ghost function Users(live: Tiling, big: seq<Rec>): (r: Tiling) { map p | p in live && !IsRec(big, p) :: live[p] }

  lemma UsersLive(live: Tiling, big: seq<Rec>, p: nat)
    ensures p in Users(live, big) ==> p in live && Users(live, big)[p] == live[p]
  {
  }

  lemma UsersAll(live: Tiling, big: seq<Rec>)
    ensures forall p :: p in Users(live, big) ==> p in live && live[p] == Users(live, big)[p]
  {
  }

  lemma KeptAgree(w: Words, w': Words, live: Tiling, own: set<nat>, sentinel: nat)
    requires Slob.KeepsWords(w, w', live, own, sentinel)
    ensures AgreeOn(w, w', live)
  {
    forall a, u: nat | InTile(live, a, u) && u < |w.unitN| ensures Agree(w, w', u) {
      assert Covers(live, u);
      assert Slob.Theirs(live, own, sentinel, u);
    }
  }

  /** What a successful `small_alloc` does to the state. */
  lemma AllocKeeps(s: State, p: nat, n: nat, w': Words, own': set<nat>, pages': seq<PagePool.Page>, sentinel: nat)
    requires Ok(s, -1) && Slob.KeepsWords(s.w, w', s.live, own', sentinel)
      && Slob.Obtained(s.pages, pages', s.own, own')
    requires p !in s.live && n >= 2 && p < |w'.unitN| && w'.unitN[p] == n
    ensures Ok(State(w', s.live[p := n], own', s.big, s.head, pages', s.first), -1) && !IsRec(s.big, p)
    ensures Users(s.live[p := n], s.big) == Users(s.live, s.big)[p := n]
  {
    assert !IsRec(s.big, p) by { hide Holds, BigApart, Headers; }
    hide Chained, BigApart, Headers, Slob.KeepsWords, Slob.Obtained, Ok, IsRec;
    KeptAgree(s.w, w', s.live, own', sentinel);
    WordsKeep(s, -1, w');
    PageObtained(s.(w := w'), -1, own', pages');
    BlockAdded(s.(w := w', own := own', pages := pages'), p, n);
  }

  /** What `small_free` of a block that is no record does to the state. */
  lemma FreeKeeps(s: State, p: nat, w': Words, sentinel: nat)
    requires Ok(s, p) && !IsRec(s.big, p) && Slob.KeepsWords(s.w, w', s.live - {p}, s.own, sentinel)
    ensures Ok(s.(w := w', live := s.live - {p}), -1)
    ensures Users(s.live - {p}, s.big) == Users(s.live, s.big) - {p}
  {
    hide Chained, BigApart, Headers, Slob.KeepsWords, Ok, IsRec;
    KeptAgree(s.w, w', s.live - {p}, s.own, sentinel);
    BlockGone(s, p);
    WordsKeep(s.(live := s.live - {p}), -1, w');
  }

  lemma OtherBlock(live: Tiling, p: nat, n: nat, a: nat, u: int)
    requires p !in live && Tiled(live[p := n]) && InTile(live, a, u)
    ensures !InTile(live[p := n], p, u)
  {
    assert a in live[p := n] && live[p := n][a] == live[a];
  }

  lemma HeaderOf(s: State, p: nat)
    requires Ok(s, -1) && p in s.live && !IsRec(s.big, p)
    ensures WordsOk(s.w) && p < |s.w.unitN| && s.w.unitN[p] == s.live[p] >= 2
  {
  }

  /** Writing a block that was just handed out keeps the words of all others. */
  lemma InnerKeeps(w: Words, w': Words, live: Tiling, p: nat, n: nat, own: set<nat>, sentinel: nat)
    requires WordsOk(w) && WordsOk(w') && |w'.unitN| == |w.unitN| && p !in live && Tiled(live[p := n])
    requires forall u: int :: Covers(live[p := n], u) ==> u != sentinel && 0 <= u && u / 256 in own
    requires forall u: nat :: u < |w.unitN| && !InTile(live[p := n], p, u) ==> Agree(w, w', u)
    ensures Slob.KeepsWords(w, w', live, own, sentinel)
  {
    var more := live[p := n];
    forall u: nat | u < |w.unitN| && Slob.Theirs(live, own, sentinel, u) ensures Agree(w, w', u) {
      assert InTile(more, p, u) ==> Covers(more, u);
      forall a: nat | InTile(live, a, u) ensures !InTile(more, p, u) {
        OtherBlock(live, p, n, a, u);
      }
    }
  }

  /** The words of `count` times 8 bytes from `start` on are zero. */
  ghost predicate Zero(w: Words, start: nat, count: nat) {
    && WordsOk(w) && 2 * (|w.unitN| - start) >= count
    && (forall u :: start <= u < |w.unitN| && 2 * (u - start) < count ==> w.unitN[u] == 0)
    && (forall u :: start <= u < |w.unitN| && 2 * (u - start) + 1 < count ==> w.next[u] == 0)
  }

  lemma WipedZero(w: Words, start: nat, count: nat)
    requires WordsOk(w) && 2 * (|w.unitN| - start) >= count
    ensures Zero(Slob.Wiped(w, start, count), start, count)
  {
  }

  /** The pages of the `i`th big block stay zero while what is held stays. */
  lemma ZeroHeld(w: Words, w': Words, live: Tiling, big: seq<Rec>, i: nat)
    requires i < |big| && KeepsHeld(w, w', live, big) && Zero(w, 256 * big[i].page, 512 * big[i].n)
    ensures Zero(w', 256 * big[i].page, 512 * big[i].n)
  {
    forall u: nat | 256 * big[i].page <= u < |w.unitN| && 2 * (u - 256 * big[i].page) < 512 * big[i].n
      ensures w'.unitN[u] == w.unitN[u] && w'.next[u] == w.next[u]
    {
      assert big[i].Has(u / 256) && Agree(w, w', u);
    }
  }

  /** Pages that are not the small allocator's stay zero while it works. */
  lemma ZeroKept(w: Words, w': Words, b: Rec, live: Tiling, own: set<nat>, sentinel: nat)
    requires Slob.KeepsWords(w, w', live, own, sentinel) && Zero(w, 256 * b.page, 512 * b.n)
    requires forall q: nat :: b.Has(q) ==> q !in own && q != sentinel / 256
    ensures Zero(w', 256 * b.page, 512 * b.n)
  {
    forall u: nat | 256 * b.page <= u < |w.unitN| && 2 * (u - 256 * b.page) < 512 * b.n
      ensures w'.unitN[u] == w.unitN[u] && w'.next[u] == w.next[u]
    {
      assert b.Has(u / 256);
      assert Slob.Theirs(live, own, sentinel, u);
    }
  }

  lemma NullKeeps(s: State, t: State)
    requires Ok(s, -1) && t.w == s.w && t.live == s.live && t.big == s.big && t.head == s.head && t.first == s.first
    requires t.own == s.own && Slob.Obtained(s.pages, t.pages, s.own, t.own)
    ensures Ok(t, -1)
  {
    PageObtained(s, -1, t.own, t.pages);
    assert t == s.(own := t.own, pages := t.pages);
  }

  /** Zeroing a block behind its header touches nothing else. */
  lemma WipeInside(w: Words, live: Tiling, p: nat, size: nat)
    requires WordsOk(w) && Tiled(live) && Inside(live, |w.unitN|) && p in live && live[p] == Slob.UnitN(size + 16)
      && size % 8 == 0
    ensures 2 * (|w.unitN| - (p + 1)) >= size / 8 && (live - {p})[p := live[p]] == live
    ensures forall u: nat :: p + 1 <= u && 2 * (u - (p + 1)) < size / 8 ==> InTile(live, p, u) && Covers(live, u)
    ensures Slob.Wiped(w, p + 1, size / 8).unitN[p] == w.unitN[p]
    ensures Zero(Slob.Wiped(w, p + 1, size / 8), p + 1, size / 8)
    ensures forall u: nat :: u < |w.unitN| && !InTile(live, p, u) ==> Agree(w, Slob.Wiped(w, p + 1, size / 8), u)
  {
    forall u: nat | p + 1 <= u && 2 * (u - (p + 1)) < size / 8 ensures InTile(live, p, u) && Covers(live, u) {
      assert InTile(live, p, u);
    }
  }

  lemma InBlock(live: Tiling, r: nat, u: nat)
    requires r in live && r <= u < r + live[r]
    ensures InTile(live, r, u) && Covers(live, u)
  {
    assert InTile(live, r, u);
  }

  // ---------------------------------------------------------------- big blocks

  ghost predicate InBig(big: seq<Rec>, u: nat) { exists i :: 0 <= i < |big| && big[i].Has(u / 256) }

  /** The words of the blocks in `live` and of the pages in `big` are as they were. */
  ghost predicate KeepsHeld(w: Words, w': Words, live: Tiling, big: seq<Rec>) {
    && WordsOk(w) && WordsOk(w') && |w'.unitN| == |w.unitN|
    && forall u: nat :: u < |w.unitN| && (Covers(live, u) || InBig(big, u)) ==> Agree(w, w', u)
  }

  lemma HeldKept(w: Words, w': Words, live: Tiling, big: seq<Rec>, own: set<nat>, sentinel: nat)
    requires Slob.KeepsWords(w, w', live, own, sentinel)
    requires forall i, q: nat :: 0 <= i < |big| && big[i].Has(q) ==> q !in own && q != sentinel / 256
    ensures KeepsHeld(w, w', live, big)
  {
    forall u: nat | u < |w.unitN| && (Covers(live, u) || InBig(big, u)) ensures Slob.Theirs(live, own, sentinel, u) {
      if InBig(big, u) {
        var i :| 0 <= i < |big| && big[i].Has(u / 256);
        assert u / 256 !in own && u / 256 != sentinel / 256;
      }
    }
    hide Covers, InBig, Slob.Theirs;
  }

  lemma HeldTrans(w: Words, v: Words, u: Words, live: Tiling, big: seq<Rec>)
    requires KeepsHeld(w, v, live, big) && KeepsHeld(v, u, live, big)
    ensures KeepsHeld(w, u, live, big)
  {
  }

  /** Fewer blocks. */
  lemma HeldLess(w: Words, w': Words, live: Tiling, big: seq<Rec>, live': Tiling, big': seq<Rec>)
    requires KeepsHeld(w, w', live, big)
    requires forall a :: a in live' ==> a in live && live[a] == live'[a]
    requires forall i :: 0 <= i < |big'| ==> big'[i] in big
    ensures KeepsHeld(w, w', live', big')
  {
    forall u: nat | Covers(live', u) ensures Covers(live, u) {
      var a :| InTile(live', a, u);
      assert InTile(live, a, u);
    }
    forall u: nat | InBig(big', u) ensures InBig(big, u) {
    }
    hide Covers, InBig;
  }

  /** The pages of big blocks are not the small allocator's, and do not hold its sentinel. */
  lemma BigPages(s: State, sentinel: nat)
    requires BigApart(s) && sentinel + 1 < 256 * s.first
    ensures forall i, q: nat :: 0 <= i < |s.big| && s.big[i].Has(q) ==>
      q < |s.pages| && s.pages[q].flag == PagePool.Used && q !in s.own && q != sentinel / 256
  {
    forall i, q: nat | 0 <= i < |s.big| && s.big[i].Has(q)
      ensures q < |s.pages| && s.pages[q].flag == PagePool.Used && q !in s.own && q != sentinel / 256
    {
      assert BigOk(s.big[i], s.pages, s.own, s.first);
    }
  }

  /** Pages that were free are no big block's. */
  lemma FreshApart(s: State, but: int, b: Rec, pages': seq<PagePool.Page>)
    requires Ok(s, but) && b.n >= 1 && s.first <= b.page && b.page + b.n <= |s.pages| == |pages'|
    requires forall q: nat :: b.Has(q) ==>
      s.pages[q].flag == PagePool.Free && q !in s.own && pages'[q].flag == PagePool.Used
    ensures BigOk(b, pages', s.own, s.first) && forall i :: 0 <= i < |s.big| ==> Apart(b, s.big[i])
  {
    forall i | 0 <= i < |s.big| ensures Apart(b, s.big[i]) {
      assert BigOk(s.big[i], s.pages, s.own, s.first);
      var q := if b.page >= s.big[i].page then b.page else s.big[i].page;
      assert b.Has(q) ==> !s.big[i].Has(q);
    }
  }

  lemma PushedUsers(live: Tiling, big: seq<Rec>, b: Rec)
    ensures Users(live, [b] + big) == Users(live, big) - {b.at}
  {
    forall p: nat ensures IsRec([b] + big, p) <==> IsRec(big, p) || p == b.at {
      PushedRec(big, b, p);
    }
    hide IsRec;
  }

  /** Zeroing the pages of a new big block touches nothing that anybody else holds. */
  lemma WipePages(s: State, b: Rec, live: Tiling, big: seq<Rec>, size: nat)
    requires WordsOk(s.w) && 256 * (b.page + b.n) <= |s.w.unitN| && size % 8 == 0 && size <= 4096 * b.n
    requires forall u: int :: Covers(s.live, u) ==> 0 <= u && u / 256 in s.own
    requires forall q: nat :: b.Has(q) ==> q !in s.own
    requires forall a :: a in live ==> a in s.live && live[a] == s.live[a]
    requires forall i :: 0 <= i < |big| ==> Apart(b, big[i])
    ensures Zero(Slob.Wiped(s.w, 256 * b.page, size / 8), 256 * b.page, size / 8)
    ensures AgreeOn(s.w, Slob.Wiped(s.w, 256 * b.page, size / 8), s.live)
    ensures KeepsHeld(s.w, Slob.Wiped(s.w, 256 * b.page, size / 8), live, big)
  {
    var w' := Slob.Wiped(s.w, 256 * b.page, size / 8);
    forall u: nat | u < |s.w.unitN| && !b.Has(u / 256) ensures Agree(s.w, w', u) {
    }
    forall a, u: nat | InTile(s.live, a, u) && u < |s.w.unitN| ensures Agree(s.w, w', u) {
      assert Covers(s.live, u);
    }
    forall u: nat | u < |s.w.unitN| && (Covers(live, u) || InBig(big, u)) ensures Agree(s.w, w', u) {
      if Covers(live, u) {
        var a :| InTile(live, a, u);
        assert InTile(s.live, a, u);
      } else {
        var i :| 0 <= i < |big| && big[i].Has(u / 256);
        assert Apart(b, big[i]);
      }
    }
  }

  lemma HeldOk(t: State, w: Words, live: Tiling, sentinel: nat, but: int)
    requires Ok(t, but) && sentinel + 1 < 256 * t.first && Slob.KeepsWords(w, t.w, live, t.own, sentinel)
    ensures KeepsHeld(w, t.w, live, t.big)
  {
    BigPages(t, sentinel);
    HeldKept(w, t.w, live, t.big, t.own, sentinel);
  }

  lemma WipeReady(v: State, b: Rec, live: Tiling, big: seq<Rec>, size: nat, sentinel: nat)
    requires Ok(v, -1) && v.big == [b] + big && |v.w.unitN| == |v.w.next| == 256 * |v.pages|
      && sentinel + 1 < 256 * v.first
    requires size % 8 == 0 && size <= 4096 * b.n
    requires forall u: int :: Covers(v.live, u) ==> u != sentinel && 0 <= u && u / 256 in v.own
    requires forall a :: a in live ==> a in v.live && live[a] == v.live[a]
    ensures 2 * (|v.w.unitN| - 256 * b.page) >= size / 8
    ensures forall u: nat :: 256 * b.page <= u && 2 * (u - 256 * b.page) < size / 8 ==>
      Slob.Theirs(v.live, v.own, sentinel, u)
    ensures Zero(Slob.Wiped(v.w, 256 * b.page, size / 8), 256 * b.page, size / 8)
    ensures AgreeOn(v.w, Slob.Wiped(v.w, 256 * b.page, size / 8), v.live)
    ensures KeepsHeld(v.w, Slob.Wiped(v.w, 256 * b.page, size / 8), live, big)
  {
    assert v.big[0] == b && BigOk(b, v.pages, v.own, v.first);
    forall i | 0 <= i < |big| ensures Apart(b, big[i]) {
      assert v.big[i + 1] == big[i];
    }
    hide Ok, Covers, Apart, AgreeOn, Zero, KeepsHeld;
    forall u: nat | 256 * b.page <= u && 2 * (u - 256 * b.page) < size / 8
      ensures Slob.Theirs(v.live, v.own, sentinel, u) {
      assert b.Has(u / 256);
    }
    hide BigOk;
    WipePages(v, b, live, big, size);
  }

  // ---------------------------------------------------------------- freeing

  /** `addr` is the address of the `i`th big block. */
  ghost predicate IsBigAt(big: seq<Rec>, i: nat, addr: nat) { i < |big| && addr == 256 * big[i].page }

  /** A small block's address, aligned to a page or not, is never that of a big block. */
  lemma SmallIsNotBig(s: State, addr: nat, i: nat)
    requires Ok(s, -1) && addr > 0 && addr - 1 in s.live && forall u: int :: Covers(s.live, u) ==>
      0 <= u && u / 256 in s.own
    ensures !IsBigAt(s.big, i, addr)
  {
    hide Ok, Covers;
    TwoUnits(s, addr - 1);
    InBlock(s.live, addr - 1, addr);
    assert addr / 256 in s.own;
    if i < |s.big| {
      CutDraft(s, i);
      assert !s.big[i].Has(addr / 256);
    }
  }

  lemma TwoUnits(s: State, p: nat)
    requires Ok(s, -1) && p in s.live
    ensures s.live[p] >= 2
  {
  }

  lemma CutUsers(s: State, i: nat)
    requires Ok(s, -1) && i < |s.big|
    ensures Users(s.live, Cut(s.big, i)) - {s.big[i].at} == Users(s.live, s.big)
  {
    assert IsRec(s.big, s.big[i].at);
    assert forall i, j :: 0 <= i < j < |s.big| ==> s.big[i].at != s.big[j].at;
    hide Ok, IsRec, Cut, Users;
    forall p: nat
      ensures p in Users(s.live, Cut(s.big, i)) && p != s.big[i].at <==> p in Users(s.live, s.big)
      ensures p in Users(s.live, Cut(s.big, i)) ==> p in s.live && Users(s.live, Cut(s.big, i))[p] == s.live[p]
      ensures p in Users(s.live, s.big) ==> p in s.live && Users(s.live, s.big)[p] == s.live[p]
    {
      CutUserAt(s.live, s.big, i, p);
    }
    SameTiles(Users(s.live, Cut(s.big, i)), Users(s.live, s.big), s.live, s.big[i].at);
  }

  lemma SameTiles(more: Tiling, all: Tiling, live: Tiling, r: nat)
    requires forall p :: p in more && p != r <==> p in all
    requires forall p :: p in more ==> p in live && more[p] == live[p]
    requires forall p :: p in all ==> p in live && all[p] == live[p]
    ensures more - {r} == all
  {
  }

  lemma CutUserAt(live: Tiling, big: seq<Rec>, i: nat, p: nat)
    requires i < |big| && IsRec(big, big[i].at) && forall i, j :: 0 <= i < j < |big| ==> big[i].at != big[j].at
    ensures p in Users(live, Cut(big, i)) && p != big[i].at <==> p in Users(live, big)
    ensures p in Users(live, Cut(big, i)) ==> p in live && Users(live, Cut(big, i))[p] == live[p]
    ensures p in Users(live, big) ==> p in live && Users(live, big)[p] == live[p]
  {
    hide Users, IsRec, Cut;
    CutRec(big, i, p);
    UserIs(live, big, p);
    UserIs(live, Cut(big, i), p);
  }

  lemma UserIs(live: Tiling, big: seq<Rec>, p: nat)
    ensures p in Users(live, big) <==> p in live && !IsRec(big, p)
    ensures p in Users(live, big) ==> Users(live, big)[p] == live[p]
  {
  }

  /** The record itself still holds its number of pages. */
  lemma SkippedCount(s: State, i: nat)
    requires Ok(s, -1) && Tiled(s.live) && i < |s.big|
    ensures WordsOk(s.w) && s.big[i].at < |s.w.unitN| && (i > 0 ==> s.big[i - 1].at + 1 < |s.w.unitN|)
    ensures Skipped(s.w, s.big, i).unitN[s.big[i].at] == s.big[i].n
  {
    HoldsAt(s, i);
    if i > 0 {
      HoldsAt(s, i - 1);
      RecsApart(s, i, i - 1);
    }
  }

  /** The link that is changed lies in a record, so in nothing that a caller holds. */
  lemma SkippedHeld(s: State, i: nat)
    requires Ok(s, -1) && Tiled(s.live) && i < |s.big| && forall u: int :: Covers(s.live, u) ==>
      0 <= u && u / 256 in s.own
    ensures WordsOk(s.w) && (i > 0 ==> s.big[i - 1].at + 1 < |s.w.unitN|)
    ensures KeepsHeld(s.w, Skipped(s.w, s.big, i), Users(s.live, s.big), s.big)
  {
    hide Covers, InBig, Users, Ok;
    SizesOf(s, i);
    if i > 0 {
      SecondUnit(s, i - 1);
    }
  }

  lemma SizesOf(s: State, i: nat)
    requires Ok(s, -1) && i < |s.big|
    ensures WordsOk(s.w) && (i > 0 ==> s.big[i - 1].at + 1 < |s.w.unitN|)
  {
    if i > 0 {
      HoldsAt(s, i - 1);
    }
  }

  lemma SecondUnit(s: State, i: nat)
    requires Ok(s, -1) && Tiled(s.live) && i < |s.big| && forall u: int :: Covers(s.live, u) ==>
      0 <= u && u / 256 in s.own
    ensures !Covers(Users(s.live, s.big), s.big[i].at + 1) && !InBig(s.big, s.big[i].at + 1)
  {
    var r, live := s.big[i].at, Users(s.live, s.big);
    var u := r + 1;
    assert IsRec(s.big, r) && r in s.live && s.live[r] == 2 && BigApart(s);
    InBlock(s.live, r, u);
    hide Ok, Chained, Headers, IsRec;
    forall a: nat | a in live ensures !InTile(live, a, u) {
      assert a in s.live && live[a] == s.live[a] && a != r;
    }
    forall j | 0 <= j < |s.big| ensures !s.big[j].Has(u / 256) {
      assert BigOk(s.big[j], s.pages, s.own, s.first);
    }
  }

  /** Clearing the pages of the `i`th big block touches nothing that another caller holds. */
  lemma ClearReady(s: State, i: nat, sentinel: nat)
    requires Ok(s, -1) && i < |s.big| && |s.w.unitN| == |s.w.next| == 256 * |s.pages| && sentinel + 1 < 256 * s.first
    requires forall u: int :: Covers(s.live, u) ==> u != sentinel && 0 <= u && u / 256 in s.own
    ensures 2 * (|s.w.unitN| - 256 * s.big[i].page) >= 512 * s.big[i].n
    ensures forall u: nat :: 256 * s.big[i].page <= u && 2 * (u - 256 * s.big[i].page) < 512 * s.big[i].n ==>
      Slob.Theirs(s.live, s.own, sentinel, u)
    ensures AgreeOn(s.w, Slob.Wiped(s.w, 256 * s.big[i].page, 512 * s.big[i].n), s.live)
    ensures KeepsHeld(s.w, Slob.Wiped(s.w, 256 * s.big[i].page, 512 * s.big[i].n), Users(s.live, s.big), Cut(s.big, i))
  {
    hide Ok, Covers, Apart, AgreeOn, Zero, KeepsHeld, Cut, Users;
    var b := s.big[i];
    CutDraft(s, i);
    CutApart(s, i);
    ClearTheirs(s, b, sentinel);
    UsersAll(s.live, s.big);
    WipePages(s, b, Users(s.live, s.big), Cut(s.big, i), 4096 * b.n);
  }

  lemma ClearTheirs(s: State, b: Rec, sentinel: nat)
    requires s.first <= b.page && sentinel + 1 < 256 * s.first && forall q: nat :: b.Has(q) ==> q !in s.own
    ensures forall u: nat :: 256 * b.page <= u && 2 * (u - 256 * b.page) < 512 * b.n ==>
      Slob.Theirs(s.live, s.own, sentinel, u)
  {
    forall u: nat | 256 * b.page <= u && 2 * (u - 256 * b.page) < 512 * b.n
      ensures Slob.Theirs(s.live, s.own, sentinel, u) {
      assert b.Has(u / 256);
    }
  }

  lemma CutApart(s: State, i: nat)
    requires Ok(s, -1) && i < |s.big|
    ensures forall k :: 0 <= k < |Cut(s.big, i)| ==> Apart(s.big[i], Cut(s.big, i)[k])
  {
    UnlinkedApart(s, i);
    hide Ok, Apart, Cut;
    forall k | 0 <= k < |Cut(s.big, i)| ensures Apart(s.big[i], Cut(s.big, i)[k]) {
      ApartBoth(s.big[i], Cut(s.big, i)[k]);
    }
  }

  lemma ApartBoth(a: Rec, b: Rec)
    requires Apart(b, a)
    ensures Apart(a, b)
  {
  }

  /** A block whose record was taken off the list, ready to be freed. */
  lemma CutDraft(s: State, i: nat)
    requires Ok(s, -1) && i < |s.big|
    ensures s.big[i].at in s.live && s.live[s.big[i].at] == 2 && !IsRec(Cut(s.big, i), s.big[i].at)
    ensures s.big[i].n >= 1 && s.first <= s.big[i].page && s.big[i].page + s.big[i].n <= |s.pages|
    ensures forall q: nat :: s.big[i].Has(q) ==> s.pages[q].flag == PagePool.Used && q !in s.own
  {
    CutRec(s.big, i, s.big[i].at);
    assert BigOk(s.big[i], s.pages, s.own, s.first);
  }

  lemma CutIn(big: seq<Rec>, i: nat)
    requires i < |big|
    ensures forall k :: 0 <= k < |Cut(big, i)| ==> Cut(big, i)[k] in big
  {
    forall k | 0 <= k < |Cut(big, i)| ensures Cut(big, i)[k] in big {
      CutAt(big, i, k);
    }
  }

  lemma OkBut(s: State, p: int)
    requires Ok(s, -1)
    ensures Ok(s, p)
  {
  }

  lemma SameHeld(w: Words, live: Tiling, big: seq<Rec>)
    requires WordsOk(w)
    ensures KeepsHeld(w, w, live, big)
  {
  }

  /** Just the pages of `b` went back to the pool. */
  ghost predicate GivenBack(pages: seq<PagePool.Page>, pages': seq<PagePool.Page>, b: Rec) {
    |pages'| == |pages| && forall q: nat :: q < |pages| ==>
      pages'[q].flag == if b.Has(q) then PagePool.Free else pages[q].flag
  }

  /** No free block of the pool has `n` pages. */
  ghost predicate NoneHas(bs: seq<PagePool.Block>, n: nat) { forall i :: 0 <= i < |bs| ==> bs[i].size < n }

  class Heap {
    const slob: Slob.Slob
    var bigBlocks: nat
    ghost var big: seq<Rec>

    ghost function Now(): (s: State)
      reads this, slob, slob.pool, slob.pool.pages
    {
      State(slob.Memory(), slob.LiveBlocks(), slob.own, big, bigBlocks, slob.pool.pages[..], slob.pool.first)
    }

    ghost predicate Valid()
      reads this, slob, slob.pool, slob.pool.pages
    {
      slob.Valid() && Ok(Now(), -1)
    }

    /** The small blocks of callers, header included. */
    ghost function Small(): (r: Tiling)
      reads this, slob
    {
      Users(slob.LiveBlocks(), big)
    }

    /** The state that `slob_init` leaves: no big blocks. */
    constructor (slob: Slob.Slob)
      requires slob.Valid() && slob.LiveBlocks() == map[]
      ensures Valid() && this.slob == slob && big == [] && Small() == map[]
    {
      this.slob := slob;
      bigBlocks := 0;
      big := [];
      new;
      slob.Sizes();
    }

    /** `memset` over the new block at `p`, all but its header. */
    method Zeroing(p: nat, size: nat)
      requires Valid() && p in slob.LiveBlocks() && !IsRec(big, p) && slob.LiveBlocks()[p] == Slob.UnitN(size + 16)
        && size % 8 == 0
      modifies slob`unitN, slob`next
      ensures Valid() && Zero(slob.Memory(), p + 1, size / 8)
      ensures Slob.KeepsWords(old(slob.Memory()), slob.Memory(), old(slob.LiveBlocks()) - {p}, slob.own, slob.sentinel)
    {
      hide Ok, Slob.Slob.Valid, Slob.KeepsWords, Slob.HasFit, Users, IsRec;
      ghost var s := Now();
      HeaderOf(s, p);
      slob.LiveApart();
      WipeInside(s.w, s.live, p, size);
      slob.Wipe(p + 1, size / 8);
      BlockWritten(s, -1, p, slob.Memory());
      InnerKeeps(s.w, slob.Memory(), s.live - {p}, p, s.live[p], slob.own, slob.sentinel);
    }

    /** `kmalloc` for less than a page. */
    method KmallocSmall(size: nat) returns (addr: nat)
      requires Valid() && size % 8 == 0 && 0 < size < 4080
      modifies slob, slob.pool, slob.pool.pages
      ensures Valid()
      ensures addr == 0 <==>
        !Slob.HasFit(old(slob.Memory()), old(slob.ring), Slob.UnitN(size + 16)) && old(slob.pool.Blocks()) == []
      ensures addr == 0 ==> slob.LiveBlocks() == old(slob.LiveBlocks())
      ensures addr != 0 ==> addr - 1 !in old(slob.LiveBlocks())
      ensures addr != 0 ==> Small() == old(Small())[(addr - 1) as nat := Slob.UnitN(size + 16)]
      ensures addr != 0 ==> Zero(slob.Memory(), addr, size / 8)
      ensures Slob.KeepsWords(old(slob.Memory()), slob.Memory(), old(slob.LiveBlocks()), slob.own, slob.sentinel)
    {
      hide Ok, Slob.Slob.Valid, Slob.KeepsWords, Slob.Obtained, Slob.HasFit, Users;
      ghost var s := Now();
      var p := slob.SmallAlloc(size + 16);
      if p == -1 {
        NullKeeps(s, Now());
        return 0;
      }
      AllocKeeps(s, p, Slob.UnitN(size + 16), slob.Memory(), slob.own, slob.pool.pages[..], slob.sentinel);
      ghost var t := Now();
      assert t.live - {p as nat} == s.live;
      Zeroing(p, size);
      Slob.KeepsTrans(s.w, t.w, slob.Memory(), s.live, slob.own, slob.sentinel);
      addr := p + 1;
    }

    /** `kmalloc(0)`: a block that is a header alone, so that its address is that of the unit after it. That block is
        the sentinel of the list just if the sentinel comes after the head; then it is nobody's block, or stays free. */
    method KmallocNothing() returns (addr: nat)
      requires Valid()
      modifies slob, slob.pool, slob.pool.pages
      ensures addr == slob.sentinel + 1 <==> old(slob.AtEnd())
      ensures addr == slob.sentinel + 1 && old(slob.head) == slob.sentinel ==>
        slob.Valid() && slob.LiveBlocks() == old(slob.LiveBlocks()) && slob.AtEnd()
      ensures addr != slob.sentinel + 1 ==> addr > 0 && slob.Valid() && addr - 1 !in old(slob.LiveBlocks())
      ensures addr != slob.sentinel + 1 ==> slob.LiveBlocks() == old(slob.LiveBlocks())[(addr - 1) as nat := 1]
      ensures addr != slob.sentinel + 1 ==>
        Slob.KeepsWords(old(slob.Memory()), slob.Memory(), old(slob.LiveBlocks()), slob.own, slob.sentinel)
    {
      hide Ok, Slob.Slob.Valid, Slob.KeepsWords, Slob.Obtained, Users;
      slob.SomeUnit();
      var p := slob.SmallAlloc(16);
      addr := p + 1;
    }

    /** All is well but for the header of block `but`. */
    ghost predicate Almost(but: int)
      reads this, slob, slob.pool, slob.pool.pages
    {
      slob.Valid() && Ok(Now(), but)
    }

    ghost predicate Draft(r: nat)
      reads this, slob, slob.pool, slob.pool.pages
    {
      Almost(r) && r in slob.LiveBlocks() && slob.LiveBlocks()[r] == 2 && !IsRec(big, r) && 0 < r
        && r + 1 < |slob.unitN| == |slob.next|
    }

    /** A small block for a record of `n` pages; the number takes the place of the length in its header. */
    method NewRecord(n: nat) returns (r: int)
      requires Valid()
      modifies slob, slob.pool, slob.pool.pages
      ensures r == -1 ==> Valid() && Small() == old(Small())
      ensures r == -1 <==> !Slob.HasFit(old(slob.Memory()), old(slob.ring), 2) && old(slob.pool.Blocks()) == []
      ensures slob.pool.Blocks() ==
        Slob.PagesLeft(old(slob.pool.Blocks()), Slob.HasFit(old(slob.Memory()), old(slob.ring), 2))
      ensures r != -1 ==> r >= 0 && Draft(r) && Small() == old(Small())[r := 2] && slob.unitN[r] == n
      ensures r != -1 ==> r !in old(slob.LiveBlocks()) && slob.LiveBlocks() == old(slob.LiveBlocks())[r := 2]
      ensures Slob.Obtained(old(slob.pool.pages[..]), slob.pool.pages[..], old(slob.own), slob.own)
      ensures Slob.KeepsWords(old(slob.Memory()), slob.Memory(), old(slob.LiveBlocks()), slob.own, slob.sentinel)
    {
      hide Ok, Slob.Slob.Valid, Slob.KeepsWords, Slob.Obtained, Slob.HasFit, Users, IsRec;
      ghost var s := Now();
      r := slob.SmallAlloc(24);
      if r == -1 {
        NullKeeps(s, Now());
        return;
      }
      AllocKeeps(s, r, 2, slob.Memory(), slob.own, slob.pool.pages[..], slob.sentinel);
      ghost var t := Now();
      assert t.live - {r as nat} == s.live;
      slob.Sizes();
      Note(r, n, slob.next[r]);
      Slob.KeepsTrans(s.w, t.w, slob.Memory(), s.live, slob.own, slob.sentinel);
    }

    /** Writing the first two words of the block `r`, which is no record. */
    method Note(r: nat, first: int, second: int)
      requires (Valid() || Almost(r)) && r in slob.LiveBlocks() && !IsRec(big, r) && slob.LiveBlocks()[r] == 2
      modifies slob`unitN, slob`next
      ensures Draft(r) && slob.unitN[r] == first && slob.next[r] == second
      ensures Slob.KeepsWords(old(slob.Memory()), slob.Memory(), old(slob.LiveBlocks()) - {r}, slob.own, slob.sentinel)
    {
      hide Ok, Slob.Slob.Valid, Slob.KeepsWords, IsRec;
      ghost var s := Now();
      ghost var but := if Valid() then -1 else r;
      slob.LiveApart();
      slob.AboveSentinel(r);
      InBlock(s.live, r, r);
      slob.Store(r, first, second);
      BlockWritten(s, but, r, slob.Memory());
      assert (s.live - {r})[r := s.live[r]] == s.live;
      InnerKeeps(s.w, slob.Memory(), s.live - {r}, r, s.live[r], slob.own, slob.sentinel);
    }

    /** A record whose pages could not be had goes back. */
    method Withdraw(r: nat)
      requires Draft(r)
      modifies slob
      ensures Valid() && slob.LiveBlocks() == old(slob.LiveBlocks()) - {r} && Small() == old(Small()) - {r}
      ensures slob.own == old(slob.own)
      ensures Slob.KeepsWords(old(slob.Memory()), slob.Memory(), slob.LiveBlocks(), slob.own, slob.sentinel)
    {
      hide Ok, Slob.Slob.Valid, Slob.KeepsWords, Slob.HasFit, Users, IsRec;
      ghost var s := Now();
      slob.SmallFree(r, 24);
      FreeKeeps(s, r, slob.Memory(), slob.sentinel);
    }

    /** What `kmalloc` does when there are no pages: the record, with no pages noted in it, goes back. */
    method Back(r: nat, n: nat)
      requires Draft(r)
      modifies slob
      ensures Valid() && slob.LiveBlocks() == old(slob.LiveBlocks()) - {r} && Small() == old(Small()) - {r}
      ensures KeepsHeld(old(slob.Memory()), slob.Memory(), slob.LiveBlocks(), big)
    {
      hide Ok, Slob.Slob.Valid, Slob.KeepsWords, Slob.HasFit, Users, IsRec, KeepsHeld;
      ghost var s := Now();
      slob.Extent();
      Note(r, n, 0);
      ghost var t := Now();
      Withdraw(r);
      Slob.KeepsTrans(s.w, t.w, slob.Memory(), slob.LiveBlocks(), slob.own, slob.sentinel);
      HeldOk(Now(), s.w, slob.LiveBlocks(), slob.sentinel, -1);
    }

    /** The record at `r` in front of the list. */
    method Enroll(r: nat, page: nat, n: nat)
      requires Draft(r) && slob.unitN[r] == n && slob.next[r] == 256 * page
      requires BigOk(Rec(r, page, n), slob.pool.pages[..], slob.own, slob.pool.first)
      requires forall i :: 0 <= i < |big| ==> Apart(Rec(r, page, n), big[i])
      modifies this, slob`unitN, slob`next
      ensures Valid() && big == [Rec(r, page, n)] + old(big) && Small() == old(Small()) - {r}
      ensures Slob.KeepsWords(old(slob.Memory()), slob.Memory(), old(slob.LiveBlocks()) - {r}, slob.own, slob.sentinel)
    {
      hide Ok, Slob.Slob.Valid, Slob.KeepsWords, Users, IsRec, BigOk, Apart;
      ghost var s := Now();
      slob.LiveApart();
      InBlock(s.live, r, r + 1);
      slob.Store(r + 1, bigBlocks, slob.next[r + 1]);
      BlockWritten(s, r, r, slob.Memory());
      assert (s.live - {r})[r := s.live[r]] == s.live;
      InnerKeeps(s.w, slob.Memory(), s.live - {r}, r, s.live[r], slob.own, slob.sentinel);
      Pushed(Now(), r, page, n);
      PushedUsers(s.live, big, Rec(r, page, n));
      bigBlocks := r;
      big := [Rec(r, page, n)] + big;
    }

    /** The pages at `page` become a big block with its record at `r`, zeroed. */
    method Fill(r: nat, page: nat, n: nat, size: nat)
      requires Draft(r) && slob.unitN[r] == n && size % 8 == 0 && size <= 4096 * n
      requires BigOk(Rec(r, page, n), slob.pool.pages[..], slob.own, slob.pool.first)
      requires forall i :: 0 <= i < |big| ==> Apart(Rec(r, page, n), big[i])
      modifies this, slob`unitN, slob`next
      ensures Valid() && big == [Rec(r, page, n)] + old(big) && Small() == old(Small()) - {r}
      ensures Zero(slob.Memory(), 256 * page, size / 8)
      ensures KeepsHeld(old(slob.Memory()), slob.Memory(), old(slob.LiveBlocks()) - {r}, old(big))
    {
      hide Ok, Slob.Slob.Valid, Slob.KeepsWords, Users, IsRec, Apart, KeepsHeld, BigOk;
      ghost var s := Now();
      slob.Extent();
      Note(r, n, 256 * page);
      ghost var t := Now();
      Enroll(r, page, n);
      ghost var v := Now();
      Slob.KeepsTrans(s.w, t.w, v.w, s.live - {r}, s.own, slob.sentinel);
      HeldOk(v, s.w, s.live - {r}, slob.sentinel, -1);
      HeldLess(s.w, v.w, s.live - {r}, v.big, s.live - {r}, s.big);
      slob.LiveApart();
      slob.Extent();
      WipeReady(v, Rec(r, page, n), s.live - {r}, s.big, size, slob.sentinel);
      slob.Wipe(256 * page, size / 8);
      WordsKeep(v, -1, slob.Memory());
      HeldTrans(s.w, v.w, slob.Memory(), s.live - {r}, s.big);
    }

    /** `kmalloc` for a page or more. */
    method KmallocBig(size: nat) returns (addr: nat)
      requires Valid() && size % 8 == 0 && size >= 4080
      modifies this, slob, slob.pool, slob.pool.pages
      ensures Valid() && Small() == old(Small())
      ensures addr == 0 ==> big == old(big)
      ensures addr == 0 <==>
                NoneHas(Slob.PagesLeft(old(slob.pool.Blocks()), Slob.HasFit(old(slob.Memory()), old(slob.ring), 2)),
                        PageCount(size))
      ensures addr != 0 ==>
        addr % 256 == 0
        && exists r: nat ::
             r !in old(slob.LiveBlocks()) && big == [Rec(r, addr / 256, PageCount(size))] + old(big)
      ensures addr != 0 ==> Zero(slob.Memory(), addr, size / 8)
      ensures KeepsHeld(old(slob.Memory()), slob.Memory(), old(slob.LiveBlocks()), old(big))
    {
      hide Ok, Slob.Slob.Valid, Slob.KeepsWords, Slob.Obtained, Slob.HasFit, Users, IsRec, BigOk, Apart, KeepsHeld,
        PagePool.Pool.Blocks;
      var n := PageCount(size);
      ghost var s, small := Now(), Small();
      slob.Extent();
      var r := NewRecord(n);
      ghost var t := Now();
      HeldOk(t, s.w, s.live, slob.sentinel, r);
      if r == -1 {
        return 0;
      }
      var page := slob.GetPages(n);
      UsersLive(s.live, s.big, r);
      assert t.live - {r as nat} == s.live && small[r as nat := 2] - {r as nat} == small;
      if page == -1 {
        assert NoneHas(slob.pool.Blocks(), n);
        Back(r, n);
        HeldTrans(s.w, t.w, slob.Memory(), s.live, s.big);
        return 0;
      }
      PagesTaken(t, r, page, n, slob.pool.pages[..]);
      FreshApart(t, r, Rec(r, page, n), slob.pool.pages[..]);
      Fill(r, page, n, size);
      HeldTrans(s.w, t.w, slob.Memory(), s.live, s.big);
      addr := 256 * page;
    }

    lemma SecondOf(i: nat)
      requires Valid() && i < |big|
      ensures big[i].at + 1 < |slob.unitN| && Slob.Theirs(slob.LiveBlocks(), slob.own, slob.sentinel, big[i].at + 1)
    {
      RecordAt(i);
      CutDraft(Now(), i);
      InBlock(slob.LiveBlocks(), big[i].at, big[i].at + 1);
    }

    lemma RecordAt(i: nat)
      requires Valid()
      ensures bigBlocks == Link(big, 0) && |slob.next| == |slob.unitN|
      ensures i < |big| ==> big[i].at > 0 && big[i].at + 1 < |slob.unitN| && slob.next[big[i].at] == 256 * big[i].page
      ensures i < |big| ==> slob.unitN[big[i].at] == big[i].n && slob.unitN[big[i].at + 1] == Link(big, i + 1)
    {
      slob.Extent();
      if i < |big| {
        HoldsAt(Now(), i);
      }
    }

    /** The search of `kfree`: `last` is the record before the one found, or null for the head of the list. */
    method FindBig(addr: nat) returns (r: nat, last: nat, ghost i: nat)
      requires Valid()
      ensures r == 0 ==> forall j :: 0 <= j < |big| ==> !IsBigAt(big, j, addr)
      ensures r != 0 ==> IsBigAt(big, i, addr) && r == big[i].at && last == if i == 0 then 0 else big[i - 1].at
    {
      hide Valid, Slob.Slob.Valid, Ok;
      RecordAt(0);
      r, last, i := bigBlocks, 0, 0;
      while r != 0
        invariant 0 <= i <= |big| && r == Link(big, i) && last == if i == 0 then 0 else big[i - 1].at
        invariant forall j :: 0 <= j < i ==> !IsBigAt(big, j, addr)
        invariant r == 0 ==> i == |big|
        decreases |big| - i
      {
        RecordAt(i);
        if slob.next[r] == addr {
          return;
        }
        last := r;
        r := slob.unitN[r + 1];
        i := i + 1;
        RecordAt(i);
      }
    }

    /** `memset` over the pages of the `i`th big block. */
    method Clear(addr: nat, n: nat, ghost i: nat)
      requires Valid() && IsBigAt(big, i, addr) && n == big[i].n
      modifies slob`unitN, slob`next
      ensures Valid() && KeepsHeld(old(slob.Memory()), slob.Memory(), Small(), Cut(big, i))
      ensures Zero(slob.Memory(), addr, 512 * n)
    {
      hide Ok, Slob.Slob.Valid, Users, IsRec, KeepsHeld, Cut, Zero;
      ghost var s := Now();
      slob.Extent();
      slob.LiveApart();
      ClearReady(s, i, slob.sentinel);
      slob.Wipe(addr, 512 * n);
      WipedZero(s.w, addr, 512 * n);
      WordsKeep(s, -1, slob.Memory());
    }

    /** `*last = bigblock->next`. */
    method Unlist(r: nat, last: nat, ghost i: nat)
      requires Valid() && i < |big| && r == big[i].at && last == if i == 0 then 0 else big[i - 1].at
      modifies this, slob`unitN, slob`next
      ensures Draft(r) && big == Cut(old(big), i) && Small() - {r} == old(Small())
      ensures KeepsHeld(old(slob.Memory()), slob.Memory(), old(Small()), big)
      ensures KeepsHeld(old(slob.Memory()), slob.Memory(), old(Small()), old(big))
      ensures forall k :: 0 <= k < |big| ==> Apart(big[k], old(big)[i])
      ensures slob.unitN[r] == old(big)[i].n
    {
      hide Ok, Slob.Slob.Valid, Users, IsRec, KeepsHeld, Cut, Apart;
      ghost var s := Now();
      slob.LiveApart();
      slob.AboveSentinel(r) by { CutDraft(s, i); }
      RecordAt(i);
      OffList(s, i);
      CutDraft(s, i);
      SkippedHeld(s, i);
      SkippedCount(s, i);
      CutUsers(s, i);
      var link := slob.unitN[r + 1];
      if last == 0 {
        assert i == 0 by { if i > 0 { RecordAt(i - 1); } }
        bigBlocks := link;
      } else {
        SecondOf(i - 1);
        assert slob.next[last + 1 := slob.next[last + 1]] == slob.next;
        slob.Store(last + 1, link, slob.next[last + 1]);
      }
      assert slob.Memory() == Skipped(s.w, s.big, i);
      big := Cut(big, i);
      CutIn(s.big, i);
      HeldLess(s.w, slob.Memory(), Users(s.live, s.big), s.big, Users(s.live, s.big), big);
    }

    /** What `kfree` does with a big block, the `i`th. */
    method FreeBig(addr: nat, r: nat, last: nat, ghost i: nat)
      requires Valid() && IsBigAt(big, i, addr) && r == big[i].at && last == if i == 0 then 0 else big[i - 1].at
      modifies this, slob, slob.pool, slob.pool.pages
      ensures Valid() && big == Cut(old(big), i) && Small() == old(Small())
      ensures GivenBack(old(slob.pool.pages[..]), slob.pool.pages[..], old(big)[i])
      ensures KeepsHeld(old(slob.Memory()), slob.Memory(), Small(), big)
      ensures Zero(slob.Memory(), addr, 512 * old(big)[i].n)
    {
      hide Ok, Slob.Slob.Valid, Slob.KeepsWords, Slob.HasFit, Users, IsRec, KeepsHeld, Cut, Apart, Zero;
      ghost var s := Now();
      slob.Extent();
      RecordAt(i);
      CutDraft(s, i);
      Clear(addr, slob.unitN[r], i);
      ghost var t := Now();
      Unlist(r, last, i);
      ghost var u := Now();
      ZeroHeld(t.w, u.w, Users(s.live, s.big), s.big, i);
      HeldTrans(s.w, t.w, u.w, Users(s.live, s.big), u.big);
      slob.GivePages(addr / 256, slob.unitN[r]);
      PagesFreed(u, r, s.big[i], slob.pool.pages[..]);
      ghost var v := Now();
      slob.SmallFree(r, 24);
      FreeKeeps(v, r, slob.Memory(), slob.sentinel);
      ZeroKept(u.w, slob.Memory(), s.big[i], slob.LiveBlocks(), slob.own, slob.sentinel);
      HeldOk(Now(), u.w, slob.LiveBlocks(), slob.sentinel, -1);
      UsersAll(slob.LiveBlocks(), big);
      HeldLess(u.w, slob.Memory(), slob.LiveBlocks(), big, Small(), big);
      HeldTrans(s.w, u.w, slob.Memory(), Small(), big);
    }

    /** `kmalloc`: zeroed memory for `size` bytes, or null. */
    method Kmalloc(size: nat) returns (addr: nat)
      requires Valid()
      modifies this, slob, slob.pool, slob.pool.pages
      ensures size >= 1 ==> Valid() && KeepsHeld(old(slob.Memory()), slob.Memory(), old(slob.LiveBlocks()), old(big))
      ensures size >= 1 && addr == 0 ==> Small() == old(Small()) && big == old(big)
      ensures size >= 1 && Align8(size) < 4080 ==>
                (addr == 0 <==>
                  !Slob.HasFit(old(slob.Memory()), old(slob.ring), Slob.UnitN(Align8(size) + 16))
                  && old(slob.pool.Blocks()) == [])
      ensures Align8(size) >= 4080 ==>
                (addr == 0 <==>
                  NoneHas(Slob.PagesLeft(old(slob.pool.Blocks()), Slob.HasFit(old(slob.Memory()), old(slob.ring), 2)),
                          PageCount(Align8(size))))
      ensures size >= 1 && addr != 0 ==> Zero(slob.Memory(), addr, Align8(size) / 8)
      ensures size >= 1 && addr != 0 && Align8(size) < 4080 ==>
        addr - 1 !in old(slob.LiveBlocks()) && big == old(big)
      ensures size >= 1 && addr != 0 && Align8(size) < 4080 ==>
        Small() == old(Small())[(addr - 1) as nat := Slob.UnitN(Align8(size) + 16)]
      ensures size >= 1 && addr != 0 && Align8(size) < 4080 ==>
        addr - 1 in Small() && size <= 16 * (Small()[addr - 1] - 1)
      ensures addr != 0 && Align8(size) >= 4080 ==> Small() == old(Small()) && addr % 256 == 0
      ensures addr != 0 && Align8(size) >= 4080 ==>
                exists r: nat :: r !in old(slob.LiveBlocks())
                  && big == [Rec(r, addr / 256, PageCount(Align8(size)))] + old(big)
      ensures size == 0 ==> big == old(big) && (addr == slob.sentinel + 1 <==> old(slob.AtEnd()))
      ensures size == 0 && addr != slob.sentinel + 1 ==>
        addr > 0 && slob.Valid() && slob.LiveBlocks() == old(slob.LiveBlocks())[(addr - 1) as nat := 1]
    {
      hide Ok, Slob.Slob.Valid, Slob.KeepsWords, Slob.HasFit, Users, KeepsHeld, Zero, NoneHas, PagePool.Pool.Blocks;
      hide Slob.PagesLeft;
      var aligned := Align8(size);
      if aligned == 0 {
        addr := KmallocNothing();
      } else if aligned < 4080 {
        ghost var s := Now();
        addr := KmallocSmall(aligned);
        slob.Extent();
        HeldOk(Now(), s.w, s.live, slob.sentinel, -1);
      } else {
        addr := KmallocBig(aligned);
      }
    }

    /** `kfree` of an address that `kmalloc` gave and that was not freed since; null is ignored. The big-block path
        is taken just for the addresses of big blocks, here the `i`th. */
    method Kfree(addr: nat) returns (ghost i: int)
      requires Valid() && (addr == 0 || addr - 1 in Small() || exists j :: IsBigAt(big, j, addr))
      modifies this, slob, slob.pool, slob.pool.pages
      ensures Valid() && KeepsHeld(old(slob.Memory()), slob.Memory(), Small(), big)
      ensures i < 0 <==> addr == 0 || addr - 1 in old(Small())
      ensures i >= 0 ==> IsBigAt(old(big), i, addr) && Small() == old(Small()) && big == Cut(old(big), i)
      ensures i >= 0 ==> GivenBack(old(slob.pool.pages[..]), slob.pool.pages[..], old(big)[i])
      ensures i >= 0 ==> Zero(slob.Memory(), addr, 512 * old(big)[i].n)
      ensures i < 0 ==> big == old(big) && slob.pool.pages[..] == old(slob.pool.pages[..])
      ensures i < 0 ==> Small() == if addr == 0 then old(Small()) else old(Small()) - {(addr - 1) as nat}
    {
      hide Ok, Slob.Slob.Valid, Slob.KeepsWords, Slob.HasFit, Users, KeepsHeld, Cut, IsRec, GivenBack, Zero;
      i := -1;
      if addr == 0 {
        slob.Extent();
        SameHeld(slob.Memory(), Small(), big);
        return;
      }
      SmallHere(addr);
      if addr % 256 == 0 {
        var r, last, k := FindBig(addr);
        if r != 0 {
          i := k;
          FreeBig(addr, r, last, k);
          return;
        }
      }
      FreeSmall(addr - 1);
    }

    /** What `kfree` does with a small block. */
    method FreeSmall(p: nat)
      requires Valid() && p in Small()
      modifies slob
      ensures Valid() && Small() == old(Small()) - {p} && KeepsHeld(old(slob.Memory()), slob.Memory(), Small(), big)
      ensures slob.own == old(slob.own)
    {
      hide Ok, Slob.Slob.Valid, Slob.KeepsWords, Slob.HasFit, Users, KeepsHeld, IsRec;
      ghost var s := Now();
      UserIs(s.live, s.big, p);
      HeaderOf(s, p);
      OkBut(s, p);
      slob.Extent();
      slob.SmallFree(p, 0);
      FreeKeeps(s, p, slob.Memory(), slob.sentinel);
      HeldOk(Now(), s.w, slob.LiveBlocks(), slob.sentinel, -1);
      UsersAll(slob.LiveBlocks(), big);
      HeldLess(s.w, slob.Memory(), slob.LiveBlocks(), big, Small(), big);
    }

    /** Only a big block's address finds a record. */
    lemma SmallHere(addr: nat)
      requires Valid() && addr > 0
      ensures addr - 1 in Small() ==> forall i :: !IsBigAt(big, i, addr)
    {
      slob.LiveApart();
      UsersAll(slob.LiveBlocks(), big);
      hide Ok, Users, IsBigAt;
      if addr - 1 in Small() {
        forall i: nat ensures !IsBigAt(big, i, addr) {
          SmallIsNotBig(Now(), addr, i);
        }
      }
    }

    /** No two of these overlap: the small blocks of callers with their headers and the free blocks, which are different
        tiles of the small allocator's memory; the records, which are tiles too; and the big blocks, which no tile
        covers; whatever was allocated and freed before. */
    lemma NoOverlap(a: nat, i: nat, j: nat, f: nat)
      requires Valid()
      ensures Tiled(slob.tiles)
      ensures a in Small() ==> a in slob.tiles && slob.tiles[a] == Small()[a] && a !in slob.ring
      ensures f in slob.ring ==> f in slob.tiles
      ensures i < |big| ==>
        big[i].at in slob.tiles && slob.tiles[big[i].at] == 2 && big[i].at !in Small() && big[i].at !in slob.ring
      ensures i < |big| ==> forall u: int :: Covers(slob.tiles, u) && 0 <= u ==> !big[i].Has(u / 256)
      ensures i < |big| && j < |big| && j != i ==> Apart(big[i], big[j]) && big[i].at != big[j].at
    {
      hide Merged;
      slob.Extent();
      slob.LiveApart();
      RingTiles();
      UsersAll(slob.LiveBlocks(), big);
      if i < |big| {
        BigBlock(i, j);
      }
    }

    lemma RingTiles()
      requires Valid()
      ensures Tiled(slob.tiles) && forall f :: f in slob.ring ==> f in slob.tiles
      ensures forall a :: a in slob.LiveBlocks() <==> a in slob.tiles && a !in slob.ring
      ensures forall a :: a in slob.LiveBlocks() ==> slob.LiveBlocks()[a] == slob.tiles[a]
    {
    }

    lemma BigBlock(i: nat, j: nat)
      requires Valid() && i < |big|
      ensures big[i].at in slob.LiveBlocks() && slob.LiveBlocks()[big[i].at] == 2 && big[i].at !in Small()
      ensures forall u: int :: Covers(slob.tiles, u) && 0 <= u ==> !big[i].Has(u / 256)
      ensures j < |big| && j != i ==> Apart(big[i], big[j]) && big[i].at != big[j].at
    {
      assert IsRec(big, big[i].at);
      CutDraft(Now(), i);
      slob.Extent();
      BigPages(Now(), slob.sentinel);
      hide Ring, Merged;
    }
  }
}
