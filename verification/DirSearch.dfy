/** What the search of `dir_find` finds, said of the bytes of the entries: the first entry of a file, in front of any
    end mark, that has the short name, or in front of which the slots of the long name lie. */
module DirSearch {
  import opened Bytes
  import opened LongNames
  import opened ShortNames
  import opened Directories

  // ---------------------------------------------------------------- what is looked for

  /** An entry of a file or directory, neither deleted nor a volume label nor a slot. */
  predicate IsFile(e: Entry) { e[0] != 0 && e[0] != 0xE5 && e[11] / 8 % 2 == 0 }

  /** A slot of a long name, not deleted. */
  predicate IsPart(e: Entry) { e[0] != 0 && e[0] != 0xE5 && e[11] % 64 == 0x0F }

  /** The slot with which a long name begins on the disk. */
  predicate IsHead(e: Entry) { IsPart(e) && e[0] / 0x40 % 2 == 1 }

  /** A slot numbered `n` of the name looked for, with this checksum. */
  predicate Fits(e: Entry, n: int, sum: byte, q: Query)
    requires QueryOk(q)
  {
    IsPart(e) && e[0] == n + (if IsHead(e) then 0x40 else 0) && e[13] == sum && Matches(q.buf, q.up, e)
  }

  /** From entry `b` to `i - 1` there are slots, of which the first one alone begins a name. */
  ghost predicate Block(table: seq<Entry>, b: int, i: nat) {
    && 0 <= b < i <= |table| && IsHead(table[b]) && forall j :: b < j < i ==> IsPart(table[j]) && !IsHead(table[j])
  }

  /** These are the slots of the name looked for, numbered down to `n + 1`. */
  ghost predicate Reaches(table: seq<Entry>, b: int, i: nat, n: int, sum: byte, q: Query)
    requires QueryOk(q)
  {
    Block(table, b, i) && forall j :: b <= j < i ==> Fits(table[j], n + i - j, sum, q)
  }

  /** The slots in front of entry `i` are those of the name, down to number 1, with the checksum of its short name. */
  ghost predicate HasLong(table: seq<Entry>, i: nat, q: Query)
    requires QueryOk(q) && i < |table|
  {
    !q.noLong && exists b :: Reaches(table, b, i, 0, Sum(0, table[i][..11]), q)
  }

  /** Entry `i` is one of a file with the name looked for. */
  ghost predicate Named(table: seq<Entry>, i: nat, q: Query)
    requires QueryOk(q) && i < |table|
  {
    IsFile(table[i]) && (HasLong(table, i, q) || (!q.lossy && table[i][..11] == q.fn))
  }

  /** No end mark comes before entry `i`, and no file of that name. */
  ghost predicate NotBefore(table: seq<Entry>, i: nat, q: Query)
    requires QueryOk(q) && i <= |table|
  {
    forall j: nat :: j < i ==> table[j][0] != 0 && !Named(table, j, q)
  }

  /** Entry `i` is the first of a file of that name; `blk` is where the slots in front of it begin, -1 if there are none
      or none are looked for. */
  ghost predicate FirstNamed(table: seq<Entry>, i: nat, blk: int, q: Query)
    requires QueryOk(q)
  {
    && i < |table| && Named(table, i, q) && NotBefore(table, i, q)
    && if q.noLong then blk == -1
       else Block(table, blk, i) || (blk == -1 && forall b :: !Block(table, b, i))
  }

  /** No file of that name comes before an end mark. */
  ghost predicate NoneNamed(table: seq<Entry>, q: Query)
    requires QueryOk(q)
  {
    forall i: nat :: i < |table| && (forall j: nat :: j <= i ==> table[j][0] != 0) ==> !Named(table, i, q)
  }

  // ---------------------------------------------------------------- the search

  /** What the progress says in front of entry `i`: where the block of slots there begins, its checksum, and the number
      that comes next if all of them fit. */
  ghost predicate Tells(table: seq<Entry>, i: nat, st: Progress, q: Query)
    requires QueryOk(q) && i <= |table|
  {
    if q.noLong || st.blk == -1 then st.ord == 0xFF && st.blk == -1 && (q.noLong || forall b :: !Block(table, b, i))
    else
      && Block(table, st.blk, i) && st.sum == table[st.blk][13]
      && (if st.ord == 0xFF then forall n: nat :: !Reaches(table, st.blk, i, n, st.sum, q)
          else Reaches(table, st.blk, i, st.ord, st.sum, q))
  }

  /** Before a block of slots another one does not reach the same entry. */
  lemma OneBlock(table: seq<Entry>, b: int, c: int, i: nat)
    requires Block(table, b, i) && Block(table, c, i)
    ensures b == c
  {
  }

  /** A slot is none of a name when its number is 0. */
  lemma NoSlotZero(e: Entry, n: int, sum: byte, q: Query)
    requires QueryOk(q) && Fits(e, n, sum, q)
    ensures n != 0
  {
    hide LfnOfs, Unit, ZeroFrom, Filled;
    var u := Unit(e, 0);
    assert Count(e) > 0;
  }

  /** An entry that is none of a long name ends every block of slots. */
  lemma NoBlock(table: seq<Entry>, i: nat, k: nat)
    requires i < |table| && !IsPart(table[i]) && k == i + 1
    ensures forall b :: !Block(table, b, k)
  {
  }

  /** A slot goes on with the block in front of it, or begins one. */
  lemma NextBlock(table: seq<Entry>, i: nat, b: int)
    requires i < |table| && IsPart(table[i])
    ensures Block(table, b, i + 1) <==> if IsHead(table[i]) then b == i else Block(table, b, i)
  {
    if Block(table, b, i + 1) && b < i {
      assert !IsHead(table[i]);
    }
  }

  lemma ReachesMore(table: seq<Entry>, i: nat, b: int, n: int, sum: byte, q: Query)
    requires QueryOk(q) && i < |table| && IsPart(table[i])
    ensures Reaches(table, b, i + 1, n, sum, q) <==>
            Block(table, b, i + 1) && Fits(table[i], n + 1, sum, q) && (b < i ==> Reaches(table, b, i, n + 1, sum, q))
  {
    hide Fits;
    NextBlock(table, i, b);
    if Block(table, b, i + 1) && Fits(table[i], n + 1, sum, q) && (b < i ==> Reaches(table, b, i, n + 1, sum, q)) {
      forall j | b <= j < i + 1 ensures Fits(table[j], n + (i + 1) - j, sum, q) {
        assert j < i ==> Fits(table[j], n + 1 + i - j, sum, q);
      }
    }
  }

  lemma ReachesOnce(table: seq<Entry>, b: int, i: nat, n: int, m: int, sum: byte, q: Query)
    requires QueryOk(q) && Reaches(table, b, i, n, sum, q) && Reaches(table, b, i, m, sum, q)
    ensures n == m
  {
    hide IsHead, IsPart, Matches;
    assert Fits(table[b], n + i - b, sum, q) && Fits(table[b], m + i - b, sum, q);
  }

  /** The search stops just at an entry of a file with the name. */
  lemma HitNamed(table: seq<Entry>, i: nat, st: Progress, q: Query)
    requires QueryOk(q) && i < |table| && Tells(table, i, st, q) && table[i][0] != 0
    ensures Hit(table[i], st, q) <==> Named(table, i, q)
  {
    hide Sum, Tells, HasLong;
    LongHit(table, i, st, q);
  }

  /** The progress is at number 0 with the checksum of the entry just if the slots of the name are in front of it. */
  lemma LongHit(table: seq<Entry>, i: nat, st: Progress, q: Query)
    requires QueryOk(q) && i < |table| && Tells(table, i, st, q)
    ensures HasLong(table, i, q) <==> st.ord == 0 && st.sum == Sum(0, table[i][..11])
  {
    hide Fits, Sum, Matches, Block;
    var sum := Sum(0, table[i][..11]);
    if HasLong(table, i, q) {
      var b :| Reaches(table, b, i, 0, sum, q);
      BlockBefore(table, b, i);
      OneBlock(table, b, st.blk, i);
      assert Fits(table[b], 0 + i - b, sum, q);
      FitsSum(table[b], 0 + i - b, sum, q);
      if st.ord != 0xFF {
        ReachesOnce(table, b, i, 0, st.ord, sum, q);
      }
    }
  }

  lemma FitsSum(e: Entry, n: int, sum: byte, q: Query)
    requires QueryOk(q) && Fits(e, n, sum, q)
    ensures e[13] == sum
  {
  }

  /** The progress after an entry that is no slot. */
  lemma OtherTells(table: seq<Entry>, i: nat, st: Progress, q: Query)
    requires QueryOk(q) && i < |table| && Tells(table, i, st, q) && !IsPart(table[i]) && table[i][0] != 0
    ensures Tells(table, i + 1, Pass(table[i], i, st, q), q)
  {
    hide LongStep;
    NoBlock(table, i, i + 1);
  }

  /** The progress after the slot that begins a name. */
  lemma HeadTells(table: seq<Entry>, i: nat, st: Progress, q: Query)
    requires QueryOk(q) && i < |table| && IsHead(table[i]) && !q.noLong
    ensures Tells(table, i + 1, LongStep(table[i], i, st, q), q)
  {
    hide Matches;
    var e, t := table[i], LongStep(table[i], i, st, q);
    var k, sum := i + 1, e[13];
    NextBlock(table, i, i);
    forall n: nat ensures Reaches(table, i, k, n, sum, q) <==> Fits(e, n + 1, sum, q) {
      ReachesMore(table, i, i, n, e[13], q);
    }
    if Matches(q.buf, q.up, e) && e[0] == 0x40 {
      NoSlotZero(e, 0, e[13], q);
    }
  }

  /** The progress after another slot, without a block in front of it. */
  lemma StrayTells(table: seq<Entry>, i: nat, st: Progress, q: Query)
    requires QueryOk(q) && i < |table| && IsPart(table[i]) && !IsHead(table[i]) && !q.noLong
    requires Tells(table, i, st, q) && st.blk == -1
    ensures Tells(table, i + 1, LongStep(table[i], i, st, q), q)
  {
    hide Matches;
    forall b: int, k: nat | k == i + 1 ensures !Block(table, b, k) {
      NextBlock(table, i, b);
    }
  }

  /** The progress after the next slot of a block. */
  lemma NextTells(table: seq<Entry>, i: nat, st: Progress, q: Query)
    requires QueryOk(q) && i < |table| && IsPart(table[i]) && !IsHead(table[i]) && !q.noLong
    requires Tells(table, i, st, q) && st.blk != -1
    ensures Tells(table, i + 1, LongStep(table[i], i, st, q), q)
  {
    hide Matches, Block, Reaches;
    var e, b := table[i], st.blk;
    NextBlock(table, i, b);
    BlockBefore(table, b, i);
    if st.ord != 0xFF {
      ReachesMore(table, i, b, st.ord - 1, st.sum, q);
    }
    var k := i + 1;
    forall n: nat | Reaches(table, b, k, n, st.sum, q) ensures st.ord == n + 1 && Fits(e, n + 1, st.sum, q) {
      ReachesMore(table, i, b, n, st.sum, q);
      if st.ord != 0xFF {
        ReachesOnce(table, b, i, st.ord, n + 1, st.sum, q);
      }
    }
  }

  lemma BlockBefore(table: seq<Entry>, b: int, i: nat)
    requires Block(table, b, i)
    ensures 0 <= b < i
  {
  }

  lemma PassTells(table: seq<Entry>, i: nat, st: Progress, q: Query)
    requires QueryOk(q) && i < |table| && Tells(table, i, st, q) && table[i][0] != 0
    ensures Tells(table, i + 1, Pass(table[i], i, st, q), q)
  {
    hide Matches, Block, Reaches, LongStep;
    if !IsPart(table[i]) {
      OtherTells(table, i, st, q);
    } else if !q.noLong {
      if IsHead(table[i]) {
        HeadTells(table, i, st, q);
      } else if st.blk == -1 {
        StrayTells(table, i, st, q);
      } else {
        NextTells(table, i, st, q);
      }
    }
  }

  // ---------------------------------------------------------------- the result

  /** The search finds the first entry of a file with the name, and where the slots in front of it begin; it finds
      nothing just if there is none. */
  lemma {:induction false} FindIs(table: seq<Entry>, i: nat, st: Progress, q: Query)
    requires QueryOk(q) && i <= |table| && Tells(table, i, st, q) && NotBefore(table, i, q)
    ensures match Find(table, i, st, q)
            case At(k, blk) => k >= 0 && FirstNamed(table, k, blk, q)
            case Nowhere => NoneNamed(table, q)
    decreases |table| - i
  {
    hide Matches, Block, Reaches, Named, Hit, Pass;
    if i < |table| && table[i][0] != 0 {
      HitNamed(table, i, st, q);
      if !Hit(table[i], st, q) {
        PassTells(table, i, st, q);
        FindIs(table, i + 1, Pass(table[i], i, st, q), q);
      }
    }
  }

  /** The search from the first entry on. */
  lemma FindExact(table: seq<Entry>, q: Query)
    requires QueryOk(q)
    ensures match Find(table, 0, Directories.NONE, q)
            case At(k, blk) => k >= 0 && FirstNamed(table, k, blk, q)
            case Nowhere => NoneNamed(table, q)
  {
    FindIs(table, 0, Directories.NONE, q);
  }

  /** A table has no such entry, or one alone. */
  lemma FirstAlone(table: seq<Entry>, i: nat, blk: int, k: nat, c: int, q: Query)
    requires QueryOk(q) && FirstNamed(table, i, blk, q)
    ensures !NoneNamed(table, q) && (FirstNamed(table, k, c, q) ==> k == i && c == blk)
  {
    hide Named, Block;
    assert forall j: nat :: j <= i ==> table[j][0] != 0 by {
      NamedInUse(table, i, q);
    }
    if FirstNamed(table, k, c, q) {
      assert k == i;
      if Block(table, blk, i) && Block(table, c, i) {
        OneBlock(table, blk, c, i);
      }
    }
  }

  lemma NamedInUse(table: seq<Entry>, i: nat, q: Query)
    requires QueryOk(q) && i < |table| && Named(table, i, q)
    ensures table[i][0] != 0
  {
  }
}
