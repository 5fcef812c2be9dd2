/** The free-list heap of mm_alloc: block headers of (size, free, next,
    prev) laid out in memory obtained from sbrk, each followed by its
    contents. The list is a sequence of blocks in list order; a block's
    forward link is the block after it, its back-link is stored (and can go
    stale, as in the C code). Pointers are addresses, the contents of a
    block start H bytes after its header, and NULL is 0. */
module Alloc {
  import opened Wrappers

  newtype byte = x: int | 0 <= x < 256

  /** sizeof(struct meta) on an LP64 target: a size_t, an int padded to
      eight bytes and two pointers. */
  const H: nat := 32

  /** size_t is 64 bits wide. */
  const SizeLimit: nat := 0x1_0000_0000_0000_0000

  /** A header on the list: where it is, the recorded size of its contents,
      whether it is free, and the header address its prev field holds
      (0 for NULL). */
  datatype Block = Block(addr: nat, size: nat, free: bool, prev: nat)

  /** One past the last content byte of b. */
  function End(b: Block): nat
  {
    b.addr + H + b.size
  }

  /** Block i ends before block j starts. */
  ghost predicate Ordered(bs: seq<Block>, i: int, j: int)
  {
    0 <= i < j < |bs| ==> End(bs[i]) <= bs[j].addr
  }

  /** Blocks lie in address order without overlapping, all below the break. */
  ghost predicate WellFormed(bs: seq<Block>, brk: nat)
  {
    && (forall i, j :: Ordered(bs, i, j))
    && (forall i | 0 <= i < |bs| :: End(bs[i]) <= brk)
  }

  /** In a well formed list an earlier block ends before a later one starts. */
  lemma Apart(bs: seq<Block>, brk: nat, i: nat, j: nat)
    requires WellFormed(bs, brk) && i < j < |bs|
    ensures End(bs[i]) <= bs[j].addr
  {
    assert Ordered(bs, i, j);
  }

  /** No two neighbours on the list are both free. */
  ghost predicate NoAdjacentFree(bs: seq<Block>)
  {
    forall i | 0 <= i < |bs| - 1 :: !(bs[i].free && bs[i + 1].free)
  }

  /** The back-link of block i names its actual predecessor. */
  ghost predicate PrevAccurate(bs: seq<Block>, i: nat)
    requires i < |bs|
  {
    bs[i].prev == if i == 0 then 0 else bs[i - 1].addr
  }

  /** Bytes the blocks take up, headers included. */
  function Footprint(bs: seq<Block>): nat
  {
    if bs == [] then 0 else H + bs[0].size + Footprint(bs[1..])
  }

  /** The block whose contents start at p, if any (the header at p - H). */
  function BlockAt(bs: seq<Block>, p: nat): (r: Option<nat>)
    ensures r.Some? ==> r.value < |bs| && bs[r.value].addr + H == p
    ensures r.None? ==> forall i :: 0 <= i < |bs| ==> bs[i].addr + H != p
  {
    if bs == [] then None
    else if bs[0].addr + H == p then Some(0)
    else match BlockAt(bs[1..], p)
      case None => None
      case Some(i) => Some(i + 1)
  }

  /** Two sequences of blocks that agree on everything but back-links. */
  ghost predicate SameExtents(a: seq<Block>, b: seq<Block>)
  {
    |a| == |b| &&
    forall k | 0 <= k < |a| :: a[k].addr == b[k].addr && a[k].size == b[k].size && a[k].free == b[k].free
  }

  /** split(m, size) on block i: m keeps the first size bytes and is marked
      in use; a new free header is written right after them, taking the
      rest of the old contents minus its own header, with prev = m and next
      = m's old next. The old successor's prev is left as it was. */
  function SplitAt(bs: seq<Block>, i: nat, size: nat): (r: seq<Block>)
    requires i < |bs| && bs[i].size >= size + H
    ensures |r| == |bs| + 1
    ensures r[i].addr == bs[i].addr && r[i].prev == bs[i].prev && r[i + 1].prev == bs[i].addr
  {
    bs[..i]
    + [bs[i].(size := size, free := false),
       Block(bs[i].addr + H + size, bs[i].size - size - H, true, bs[i].addr)]
    + bs[i + 1..]
  }

  /** The successor of a merged block gets its prev pointed at the merged
      block (m1->next->prev = m0). */
  function Relinked(rest: seq<Block>, a: nat): (r: seq<Block>)
    ensures SameExtents(r, rest)
  {
    if rest == [] then [] else [rest[0].(prev := a)] + rest[1..]
  }

  /** merge(m0, m1) of block i and its successor: m1 leaves the list and m0
      grows by m1's header and contents. */
  function MergeAt(bs: seq<Block>, i: nat): (r: seq<Block>)
    requires i + 1 < |bs|
    ensures |r| == |bs| - 1
    ensures r[i].addr == bs[i].addr && r[i].free == bs[i].free && r[i].prev == bs[i].prev
  {
    bs[..i] + [bs[i].(size := bs[i].size + H + bs[i + 1].size)] + Relinked(bs[i + 2..], bs[i].addr)
  }

  /** split touches only block i: the blocks before it stay, and those
      after it keep their headers one place further on. */
  lemma SplitFrame(bs: seq<Block>, i: nat, size: nat)
    requires i < |bs| && bs[i].size >= size + H
    ensures var r := SplitAt(bs, i, size);
            r[..i] == bs[..i] && r[i + 2..] == bs[i + 1..]
  {
  }

  /** merge touches only blocks i and i + 1: the blocks before them stay,
      and those after them keep their extents, the first of them now
      linking back to block i. */
  lemma MergeFrame(bs: seq<Block>, i: nat)
    requires i + 1 < |bs|
    ensures var r := MergeAt(bs, i);
            && r[..i] == bs[..i] && SameExtents(r[i + 1..], bs[i + 2..])
            && (i + 2 < |bs| ==> r[i + 1].prev == bs[i].addr)
  {
  }

  /** With the first header above address 0, so every header is, an
      accurate back-link is NULL exactly at the first block: mm_free's
      test `m->prev != NULL` is the model's i > 0. */
  lemma PrevNullAtHead(bs: seq<Block>, brk: nat, i: nat)
    requires WellFormed(bs, brk) && i < |bs| && 0 < bs[0].addr && PrevAccurate(bs, i)
    ensures bs[i].prev == 0 <==> i == 0
  {
    if i > 1 {
      Apart(bs, brk, 0, i - 1);
    }
  }

  /** mm_free of block i: mark it free, then merge it into a free
      predecessor (and merge a free successor into that), or else merge a
      free successor into it. */
  function FreeAt(bs: seq<Block>, i: nat): (r: seq<Block>)
    requires i < |bs|
    ensures |r| <= |bs| <= |r| + 2
  {
    var m := bs[i := bs[i].(free := true)];
    if i > 0 && m[i - 1].free then
      var a := MergeAt(m, i - 1);
      if i < |a| && a[i].free then MergeAt(a, i - 1) else a
    else if i + 1 < |m| && m[i + 1].free then MergeAt(m, i)
    else m
  }

  /** A block mm_malloc may hand out for a request of size bytes. */
  predicate Fits(b: Block, size: nat)
  {
    b.free && b.size >= size
  }

  /** The index of the first block in list order that fits, or -1. */
  function FirstFit(bs: seq<Block>, size: nat): (r: int)
    ensures -1 <= r < |bs|
    ensures r >= 0 ==> Fits(bs[r], size) && forall j :: 0 <= j < r ==> !Fits(bs[j], size)
    ensures r == -1 <==> forall j :: 0 <= j < |bs| ==> !Fits(bs[j], size)
  {
    if bs == [] then -1
    else if Fits(bs[0], size) then 0
    else
      var r := FirstFit(bs[1..], size);
      if r < 0 then -1 else r + 1
  }

  /** Handing out block i for size bytes: split off the rest when a header
      fits in it, otherwise mark it in use and record the requested size. */
  function Reused(bs: seq<Block>, i: nat, size: nat): seq<Block>
    requires i < |bs| && Fits(bs[i], size)
  {
    if bs[i].size - size >= H then SplitAt(bs, i, size)
    else bs[i := bs[i].(size := size, free := false)]
  }

  /** What mm_malloc hands back and leaves behind: the pointer (0 for
      NULL), the new list and break, and the byte range it zeroes. */
  datatype Grant = Grant(p: nat, blocks: seq<Block>, brk: nat, zeroFrom: nat, zeroLen: nat)

  /** mm_malloc(size) on a list bs with break brk and sbrk ceiling limit.
      Growing a list of two or more blocks links the new block after the
      first block: `last` never leaves head. */
  function AllocSpec(bs: seq<Block>, brk: nat, limit: nat, size: nat): (g: Grant)
    ensures size == 0 ==> g.p == 0
    ensures g.p == 0 ==> g.blocks == bs && g.brk == brk && g.zeroLen == 0
    ensures g.p != 0 ==> g.zeroFrom <= g.p && g.p + size <= g.zeroFrom + g.zeroLen
  {
    if size == 0 then Grant(0, bs, brk, 0, 0)
    else if bs == [] then
      if brk + size + H <= limit then
        Grant(brk + H, [Block(brk, size, false, 0)], brk + size + H, brk, size + H)
      else Grant(0, bs, brk, 0, 0)
    else
      var i := FirstFit(bs, size);
      if i >= 0 then
        Grant(bs[i].addr + H, Reused(bs, i, size), brk, bs[i].addr + H, size)
      else if brk + size + H <= limit then
        Grant(brk + H, [bs[0], Block(brk, size, false, bs[0].addr)], brk + size + H, brk, size + H)
      else Grant(0, bs, brk, 0, 0)
  }

  // ---------------------------------------------------------------------
  // Properties of the list operations.

  lemma {:induction false} FootprintAppend(a: seq<Block>, b: seq<Block>)
    ensures Footprint(a + b) == Footprint(a) + Footprint(b)
  {
    if a != [] {
      assert (a + b)[1..] == a[1..] + b;
      FootprintAppend(a[1..], b);
    } else {
      assert a + b == b;
    }
  }

  lemma {:induction false} FootprintSameExtents(a: seq<Block>, b: seq<Block>)
    requires SameExtents(a, b)
    ensures Footprint(a) == Footprint(b)
  {
    if a != [] {
      assert SameExtents(a[1..], b[1..]);
      FootprintSameExtents(a[1..], b[1..]);
    }
  }

  /** Footprint of a list cut around block i. */
  lemma Around(bs: seq<Block>, i: nat)
    requires i < |bs|
    ensures Footprint(bs) == Footprint(bs[..i]) + H + bs[i].size + Footprint(bs[i + 1..])
  {
    assert bs == bs[..i] + [bs[i]] + bs[i + 1..];
    FootprintAppend(bs[..i] + [bs[i]], bs[i + 1..]);
    FootprintAppend(bs[..i], [bs[i]]);
  }

  /** split conserves bytes: the new header and the new free block's
      contents are exactly what m gave up, so the footprint is unchanged;
      the new block starts where m's contents now end and ends where they
      used to. */
  lemma SplitConserves(bs: seq<Block>, i: nat, size: nat)
    requires i < |bs| && bs[i].size >= size + H
    ensures var r := SplitAt(bs, i, size);
            && |r| == |bs| + 1
            && Footprint(r) == Footprint(bs)
            && r[i + 1].size + size + H == bs[i].size
            && r[i + 1].addr == End(r[i]) && End(r[i + 1]) == End(bs[i])
            && r[i + 1].free && !r[i].free && r[i].size == size
  {
    var r := SplitAt(bs, i, size);
    var x := bs[i].(size := size, free := false);
    var y := Block(bs[i].addr + H + size, bs[i].size - size - H, true, bs[i].addr);
    Around(bs, i);
    assert r == bs[..i] + [x, y] + bs[i + 1..];
    FootprintAppend(bs[..i] + [x, y], bs[i + 1..]);
    FootprintAppend(bs[..i], [x, y]);
    assert [x, y][1..] == [y];
    assert [y][1..] == [];
    assert Footprint([y]) == H + y.size;
    assert Footprint([x, y]) == H + x.size + Footprint([y]);
  }

  /** merge conserves bytes and leaves the list one block shorter; the
      merged block ends where the absorbed one did. */
  lemma MergeConserves(bs: seq<Block>, i: nat)
    requires i + 1 < |bs|
    ensures var r := MergeAt(bs, i);
            && |r| == |bs| - 1
            && Footprint(r) == Footprint(bs)
            && r[i].addr == bs[i].addr && End(r[i]) == End(bs[i + 1]) - (bs[i + 1].addr - End(bs[i]))
  {
    var x := bs[i].(size := bs[i].size + H + bs[i + 1].size);
    var t := Relinked(bs[i + 2..], bs[i].addr);
    FootprintSameExtents(t, bs[i + 2..]);
    FootprintAppend(bs[..i] + [x], t);
    FootprintAppend(bs[..i], [x]);
    Around(bs, i);
    Around(bs[i + 1..], 0);
    assert bs[i + 1..][1..] == bs[i + 2..];
  }

  /** Replacing blocks lo .. hi - 1 by one block at lo's address that ends
      no later than what follows keeps the list well formed. */
  lemma Splice(bs: seq<Block>, brk: nat, lo: nat, hi: nat, x: Block, tail: seq<Block>)
    requires WellFormed(bs, brk) && lo < hi <= |bs|
    requires x.addr == bs[lo].addr && End(x) <= (if hi < |bs| then bs[hi].addr else brk)
    requires SameExtents(tail, bs[hi..])
    ensures WellFormed(bs[..lo] + [x] + tail, brk)
  {
    var r := bs[..lo] + [x] + tail;
    forall i: int, j: int
      ensures Ordered(r, i, j)
    {
      if 0 <= i < j < |r| {
        var si := if i <= lo then i else i - lo - 1 + hi;
        var sj := if j <= lo then j else j - lo - 1 + hi;
        assert r[j].addr == bs[sj].addr;
        if i != lo {
          assert End(r[i]) == End(bs[si]);
          assert Ordered(bs, si, sj);
        } else if sj > hi {
          assert Ordered(bs, hi, sj);
        }
      }
    }
    forall i | 0 <= i < |r|
      ensures End(r[i]) <= brk
    {
      if i > lo {
        assert End(r[i]) == End(bs[i - lo - 1 + hi]);
      }
    }
  }

  lemma SplitWellFormed(bs: seq<Block>, brk: nat, i: nat, size: nat)
    requires WellFormed(bs, brk) && i < |bs| && bs[i].size >= size + H
    ensures WellFormed(SplitAt(bs, i, size), brk)
  {
    var r := SplitAt(bs, i, size);
    forall a: int, b: int
      ensures Ordered(r, a, b)
    {
      if 0 <= a < b < |r| {
        var sa := if a <= i then a else a - 1;
        var sb := if b <= i then b else b - 1;
        if b > i + 1 {
          assert r[b] == bs[b - 1];
        }
        if a > i + 1 {
          assert r[a] == bs[a - 1];
        }
        if sa < sb {
          assert Ordered(bs, sa, sb);
        }
      }
    }
    forall a | 0 <= a < |r|
      ensures End(r[a]) <= brk
    {
      if a > i + 1 {
        assert r[a] == bs[a - 1];
      }
    }
  }

  /** Putting a block in place of block i that starts at the same address
      and ends no later keeps the list well formed. */
  lemma ReplaceWellFormed(bs: seq<Block>, brk: nat, i: nat, y: Block)
    requires WellFormed(bs, brk) && i < |bs| && y.addr == bs[i].addr && End(y) <= End(bs[i])
    ensures WellFormed(bs[i := y], brk)
  {
    var u := bs[i := y];
    forall a: int, b: int
      ensures Ordered(u, a, b)
    {
      if 0 <= a < b < |u| {
        assert End(u[a]) <= End(bs[a]) && u[b].addr == bs[b].addr;
        assert Ordered(bs, a, b);
      }
    }
    forall a | 0 <= a < |u|
      ensures End(u[a]) <= brk
    {
      assert End(u[a]) <= End(bs[a]);
    }
  }

  lemma MergeWellFormed(bs: seq<Block>, brk: nat, i: nat)
    requires WellFormed(bs, brk) && i + 1 < |bs|
    ensures WellFormed(MergeAt(bs, i), brk)
  {
    Apart(bs, brk, i, i + 1);
    if i + 2 < |bs| {
      Apart(bs, brk, i + 1, i + 2);
    }
    Splice(bs, brk, i, i + 2, bs[i].(size := bs[i].size + H + bs[i + 1].size),
           Relinked(bs[i + 2..], bs[i].addr));
  }

  lemma FreeWellFormed(bs: seq<Block>, brk: nat, i: nat)
    requires WellFormed(bs, brk) && i < |bs|
    ensures WellFormed(FreeAt(bs, i), brk)
  {
    var m := bs[i := bs[i].(free := true)];
    ReplaceWellFormed(bs, brk, i, bs[i].(free := true));
    if i > 0 && m[i - 1].free {
      MergeWellFormed(m, brk, i - 1);
      var a := MergeAt(m, i - 1);
      if i < |a| && a[i].free {
        MergeWellFormed(a, brk, i - 1);
      }
    } else if i + 1 < |m| && m[i + 1].free {
      MergeWellFormed(m, brk, i);
    }
  }

  /** mm_free conserves bytes. */
  lemma FreeConserves(bs: seq<Block>, i: nat)
    requires i < |bs|
    ensures Footprint(FreeAt(bs, i)) == Footprint(bs)
  {
    var m := bs[i := bs[i].(free := true)];
    Around(bs, i);
    Around(m, i);
    assert m[..i] == bs[..i] && m[i + 1..] == bs[i + 1..];
    if i > 0 && m[i - 1].free {
      MergeConserves(m, i - 1);
      var a := MergeAt(m, i - 1);
      if i < |a| && a[i].free {
        MergeConserves(a, i - 1);
      }
    } else if i + 1 < |m| && m[i + 1].free {
      MergeConserves(m, i);
    }
  }

  /** A list made of a, one block x and b has no two free neighbours when
      none of its three parts nor their two seams does. */
  lemma NoAdjacentSplice(a: seq<Block>, x: Block, b: seq<Block>)
    requires NoAdjacentFree(a) && NoAdjacentFree(b)
    requires a != [] ==> !(a[|a| - 1].free && x.free)
    requires b != [] ==> !(x.free && b[0].free)
    ensures NoAdjacentFree(a + [x] + b)
  {
    var r := a + [x] + b;
    forall k | 0 <= k < |r| - 1
      ensures !(r[k].free && r[k + 1].free)
    {
      if k > |a| {
        assert r[k] == b[k - |a| - 1] && r[k + 1] == b[k - |a|];
      }
    }
  }

  lemma NoAdjacentSameExtents(a: seq<Block>, b: seq<Block>)
    requires SameExtents(a, b) && NoAdjacentFree(b)
    ensures NoAdjacentFree(a)
  {
  }

  lemma NoAdjacentSlice(bs: seq<Block>, lo: nat, hi: nat)
    requires NoAdjacentFree(bs) && lo <= hi <= |bs|
    ensures NoAdjacentFree(bs[lo..hi])
  {
    var s := bs[lo..hi];
    forall k | 0 <= k < |s| - 1
      ensures !(s[k].free && s[k + 1].free)
    {
      assert s[k] == bs[lo + k] && s[k + 1] == bs[lo + k + 1];
    }
  }

  /** What mm_free leaves around block i: the blocks before lo untouched,
      one free block x at lo's address standing for blocks lo .. hi - 1,
      and the blocks from hi on with at most a back-link changed. lo steps
      back over a free predecessor and hi forward over a free successor. */
  lemma FreeShape(bs: seq<Block>, i: nat) returns (lo: nat, hi: nat, x: Block, t: seq<Block>)
    requires i < |bs|
    ensures lo <= i < hi <= |bs| && lo + 1 >= i && hi <= i + 2
    ensures FreeAt(bs, i) == bs[..lo] + [x] + t && SameExtents(t, bs[hi..])
    ensures x.free && x.addr == bs[lo].addr
    ensures lo < i ==> bs[lo].free
    ensures lo == i && i > 0 ==> !bs[i - 1].free
    ensures hi == i + 2 ==> bs[i + 1].free
    ensures hi == i + 1 && hi < |bs| ==> !bs[hi].free
  {
    var m := bs[i := bs[i].(free := true)];
    if i > 0 && m[i - 1].free {
      lo := i - 1;
      if i + 1 < |bs| && bs[i + 1].free {
        hi := i + 2;
        x, t := FreeBothShape(bs, i);
      } else {
        hi := i + 1;
        x, t := FreePrevShape(bs, i);
      }
    } else if i + 1 < |m| && m[i + 1].free {
      lo, hi := i, i + 2;
      x, t := FreeNextShape(bs, i);
    } else {
      lo, hi := i, i + 1;
      x, t := FreeAloneShape(bs, i);
    }
  }

  /** mm_free with no free predecessor and a free successor. */
  lemma FreeNextShape(bs: seq<Block>, i: nat) returns (x: Block, t: seq<Block>)
    requires i + 1 < |bs| && !(i > 0 && bs[i - 1].free) && bs[i + 1].free
    ensures FreeAt(bs, i) == bs[..i] + [x] + t && SameExtents(t, bs[i + 2..])
    ensures x.free && x.addr == bs[i].addr
  {
    var m := bs[i := bs[i].(free := true)];
    assert FreeAt(bs, i) == MergeAt(m, i);
    x := m[i].(size := m[i].size + H + m[i + 1].size);
    t := Relinked(m[i + 2..], m[i].addr);
    assert m[..i] == bs[..i];
    assert m[i + 2..] == bs[i + 2..];
  }

  /** mm_free with no free neighbour. */
  lemma FreeAloneShape(bs: seq<Block>, i: nat) returns (x: Block, t: seq<Block>)
    requires i < |bs| && !(i > 0 && bs[i - 1].free) && !(i + 1 < |bs| && bs[i + 1].free)
    ensures FreeAt(bs, i) == bs[..i] + [x] + t && t == bs[i + 1..]
    ensures x.free && x.addr == bs[i].addr
  {
    var m := bs[i := bs[i].(free := true)];
    assert FreeAt(bs, i) == m;
    x := m[i];
    t := bs[i + 1..];
    assert m == bs[..i] + [x] + t;
  }

  /** mm_free with a free predecessor and a free successor. */
  lemma FreeBothShape(bs: seq<Block>, i: nat) returns (x: Block, t: seq<Block>)
    requires 0 < i && i + 1 < |bs| && bs[i - 1].free && bs[i + 1].free
    ensures FreeAt(bs, i) == bs[..i - 1] + [x] + t && SameExtents(t, bs[i + 2..])
    ensures x.free && x.addr == bs[i - 1].addr
  {
    var m := bs[i := bs[i].(free := true)];
    var a := MergeAt(m, i - 1);
    assert a[i] == m[i + 1].(prev := m[i - 1].addr);
    assert FreeAt(bs, i) == MergeAt(a, i - 1);
    MergeShape(m, i - 1);
    x := m[i - 1].(size := m[i - 1].size + H + m[i].size + H + m[i + 1].size);
    t := Relinked(m[i + 2..], m[i - 1].addr);
    assert m[..i - 1] == bs[..i - 1];
    assert m[i + 2..] == bs[i + 2..];
  }

  /** mm_free with a free predecessor and no free successor. */
  lemma FreePrevShape(bs: seq<Block>, i: nat) returns (x: Block, t: seq<Block>)
    requires 0 < i < |bs| && bs[i - 1].free && !(i + 1 < |bs| && bs[i + 1].free)
    ensures FreeAt(bs, i) == bs[..i - 1] + [x] + t && SameExtents(t, bs[i + 1..])
    ensures x.free && x.addr == bs[i - 1].addr
  {
    var m := bs[i := bs[i].(free := true)];
    var a := MergeAt(m, i - 1);
    if i < |a| {
      assert a[i] == m[i + 1].(prev := m[i - 1].addr);
    }
    x := m[i - 1].(size := m[i - 1].size + H + m[i].size);
    t := Relinked(m[i + 1..], m[i - 1].addr);
    assert m[..i - 1] == bs[..i - 1] && m[i + 1..] == bs[i + 1..];
  }

  /** Coalescing: freeing a block of a list without free neighbours leaves
      a list without free neighbours, so the freed block, merged or not,
      touches no other free block; it starts at the freed block's address,
      or its predecessor's when that was free. */
  lemma FreeCoalesces(bs: seq<Block>, i: nat)
    requires i < |bs| && NoAdjacentFree(bs)
    ensures NoAdjacentFree(FreeAt(bs, i))
    ensures var r := FreeAt(bs, i);
            var at := if i > 0 && bs[i - 1].free then i - 1 else i;
            at < |r| && r[at].free && r[at].addr == bs[at].addr
  {
    var lo, hi, x, t := FreeShape(bs, i);
    NoAdjacentSlice(bs, 0, lo);
    assert bs[0..lo] == bs[..lo];
    NoAdjacentSlice(bs, hi, |bs|);
    NoAdjacentSameExtents(t, bs[hi..]);
    if lo > 0 {
      assert !bs[lo - 1].free;
    }
    if t != [] {
      assert t[0].free == bs[hi].free;
      assert !bs[hi].free;
    }
    NoAdjacentSplice(bs[..lo], x, t);
    assert (bs[..lo] + [x] + t)[lo] == x;
  }

  /** Two merges of block i with its next two neighbours in a row. */
  lemma MergeShape(m: seq<Block>, i: nat)
    requires i + 2 < |m|
    ensures MergeAt(MergeAt(m, i), i)
            == m[..i] + [m[i].(size := m[i].size + H + m[i + 1].size + H + m[i + 2].size)]
               + Relinked(m[i + 3..], m[i].addr)
  {
    var a := MergeAt(m, i);
    assert a[..i] == m[..i];
    assert a[i + 1] == m[i + 2].(prev := m[i].addr);
    assert a[i + 2..] == m[i + 3..];
  }

  /** The block handed out is at the same address, in use, with the
      requested size. */
  lemma ReusedAt(bs: seq<Block>, i: nat, size: nat)
    requires i < |bs| && Fits(bs[i], size)
    ensures var r := Reused(bs, i, size);
            i < |r| && r[i].addr == bs[i].addr && !r[i].free && r[i].size == size
  {
    if bs[i].size - size >= H {
      assert SplitAt(bs, i, size)[i] == bs[i].(size := size, free := false);
    }
  }

  /** Handing out a fitting block keeps the list well formed. */
  lemma ReusedWellFormed(bs: seq<Block>, brk: nat, i: nat, size: nat)
    requires WellFormed(bs, brk) && i < |bs| && Fits(bs[i], size)
    ensures WellFormed(Reused(bs, i, size), brk)
  {
    if bs[i].size - size >= H {
      SplitWellFormed(bs, brk, i, size);
    } else {
      ReplaceWellFormed(bs, brk, i, bs[i].(size := size, free := false));
    }
  }

  /** Handing out the first fit of a list without free neighbours keeps it
      so: the block given out is in use, and a split-off remainder follows
      it and precedes a block that was already next to a free one. */
  lemma ReusedNoAdjacentFree(bs: seq<Block>, i: nat, size: nat)
    requires NoAdjacentFree(bs) && i < |bs| && Fits(bs[i], size)
    ensures NoAdjacentFree(Reused(bs, i, size))
  {
    var r := Reused(bs, i, size);
    forall k | 0 <= k < |r| - 1
      ensures !(r[k].free && r[k + 1].free)
    {
      if bs[i].size - size >= H && k > i + 1 {
        assert r[k] == bs[k - 1] && r[k + 1] == bs[k];
      }
    }
  }

  /** mm_malloc keeps the list well formed below the (possibly moved) break. */
  lemma AllocWellFormed(bs: seq<Block>, brk: nat, limit: nat, size: nat)
    requires WellFormed(bs, brk)
    ensures var g := AllocSpec(bs, brk, limit, size);
            WellFormed(g.blocks, g.brk) && g.brk >= brk && (g.brk > brk ==> g.brk <= limit)
  {
    var g := AllocSpec(bs, brk, limit, size);
    if size > 0 && bs != [] {
      var i := FirstFit(bs, size);
      if i >= 0 {
        ReusedWellFormed(bs, brk, i, size);
      }
    }
  }

  /** mm_malloc hands out a block in use whose recorded size is the
      request, so mm_size of the result gives the request back. */
  lemma AllocGrantsBlock(bs: seq<Block>, brk: nat, limit: nat, size: nat)
    ensures var g := AllocSpec(bs, brk, limit, size);
            g.p != 0 ==>
              exists j :: 0 <= j < |g.blocks| && g.blocks[j].addr + H == g.p
                          && !g.blocks[j].free && g.blocks[j].size == size
  {
    var g := AllocSpec(bs, brk, limit, size);
    if g.p != 0 && bs != [] {
      var i := FirstFit(bs, size);
      if i >= 0 {
        ReusedAt(bs, i, size);
        assert g.blocks[i].addr + H == g.p;
      } else {
        assert g.blocks[1].addr + H == g.p;
      }
    } else if g.p != 0 {
      assert g.blocks[0].addr + H == g.p;
    }
  }

  /** First fit: when some block fits, mm_malloc returns the contents of
      the first fitting block in list order and does not move the break. */
  lemma AllocFirstFit(bs: seq<Block>, brk: nat, limit: nat, size: nat, j: nat)
    requires size > 0 && j < |bs| && Fits(bs[j], size)
    ensures var g := AllocSpec(bs, brk, limit, size);
            exists i :: 0 <= i <= j && Fits(bs[i], size) && g.p == bs[i].addr + H && g.brk == brk
                        && forall k :: 0 <= k < i ==> !Fits(bs[k], size)
  {
    var i := FirstFit(bs, size);
    assert i >= 0;
  }

  /** mm_malloc of a positive size fails only when no block fits and sbrk
      cannot grow the heap by the block and its header. */
  lemma AllocFails(bs: seq<Block>, brk: nat, limit: nat, size: nat)
    requires size > 0 && AllocSpec(bs, brk, limit, size).p == 0
    ensures brk + size + H > limit && forall j :: 0 <= j < |bs| ==> !Fits(bs[j], size)
  {
  }

  /** The first allocation on an empty heap creates exactly one block in
      use, of the requested size, at the old break, with no neighbours. */
  lemma AllocFirstBlock(brk: nat, limit: nat, size: nat)
    requires size > 0 && brk + size + H <= limit
    ensures var g := AllocSpec([], brk, limit, size);
            && g.blocks == [Block(brk, size, false, 0)] && g.p == brk + H
            && g.brk == brk + size + H && g.zeroFrom == brk && g.zeroLen == size + H
  {
  }

  /** The defect in growing the heap: with two or more blocks on the list,
      every block between the first and the new one drops off the list. */
  lemma GrowOrphans(bs: seq<Block>, brk: nat, limit: nat, size: nat)
    requires WellFormed(bs, brk) && |bs| >= 2 && size > 0
    requires forall j :: 0 <= j < |bs| ==> !Fits(bs[j], size)
    requires brk + size + H <= limit
    ensures var g := AllocSpec(bs, brk, limit, size);
            |g.blocks| == 2 && forall j :: 0 < j < |bs| ==> bs[j] !in g.blocks
  {
    var g := AllocSpec(bs, brk, limit, size);
    forall j | 0 < j < |bs|
      ensures bs[j] !in g.blocks
    {
      assert Ordered(bs, 0, j);
      assert End(bs[j]) <= brk;
    }
  }

  /** What growing is evidently meant to do: link the new block after the
      last one, which keeps every block on the list in order, keeps the
      list well formed and adds exactly the new block's bytes. */
  function AppendAtTail(bs: seq<Block>, brk: nat, size: nat): (r: seq<Block>)
    requires bs != []
  {
    bs + [Block(brk, size, false, bs[|bs| - 1].addr)]
  }

  lemma AppendAtTailKeepsBlocks(bs: seq<Block>, brk: nat, size: nat)
    requires bs != [] && WellFormed(bs, brk)
    ensures var r := AppendAtTail(bs, brk, size);
            && r[..|bs|] == bs && WellFormed(r, brk + size + H)
            && Footprint(r) == Footprint(bs) + H + size
            && PrevAccurate(r, |bs|)
  {
    var nb := Block(brk, size, false, bs[|bs| - 1].addr);
    var r := bs + [nb];
    FootprintAppend(bs, [nb]);
    assert [nb][1..] == [];
    forall a: int, b: int
      ensures Ordered(r, a, b)
    {
      if 0 <= a < b < |r| {
        assert r[a] == bs[a];
        if b < |bs| {
          assert Ordered(bs, a, b);
        }
      }
    }
  }

  // ---------------------------------------------------------------------
  // Memory: the content bytes, with memset and memcpy.

  /** memset(from, 0, len). */
  function Zeroed(mem: nat -> byte, from: nat, len: nat): nat -> byte
  {
    (a: nat) => if from <= a < from + len then 0 else mem(a)
  }

  /** memcpy(dst, src, len), reading the bytes as they were before the copy. */
  function Copied(mem: nat -> byte, dst: nat, src: nat, len: nat): nat -> byte
  {
    (a: nat) => if dst <= a < dst + len then mem(src + (a - dst)) else mem(a)
  }

  /** The bytes mm_malloc leaves: those it zeroes, and the rest as before. */
  function AllocMem(mem: nat -> byte, g: Grant): nat -> byte
  {
    if g.zeroLen == 0 then mem else Zeroed(mem, g.zeroFrom, g.zeroLen)
  }

  function Min(a: nat, b: nat): nat
  {
    if a <= b then a else b
  }

  // ---------------------------------------------------------------------
  // mm_realloc on values.

  /** What mm_realloc relies on for block i: merging on free needs its
      back-link to be accurate; shrinking needs room for split's header;
      growing needs a predecessor that is in use, because otherwise free
      merges the block's header into it and the header mm_realloc reads
      afterwards lies inside memory the new allocation may overwrite; and
      growing needs a successor that is not free, because otherwise free
      merges it into the block, m->size becomes the merged size and the
      memcpy may run past the new block over the headers after it
      (ReallocCopyOverruns). */
  ghost predicate ReallocReady(bs: seq<Block>, i: nat, size: nat)
    requires i < |bs|
  {
    && (size == 0 ==> PrevAccurate(bs, i))
    && (0 < size < bs[i].size ==> bs[i].size - size >= H)
    && (size > 0 && size >= bs[i].size ==>
          && PrevAccurate(bs, i) && (i == 0 || !bs[i - 1].free)
          && (i + 1 == |bs| || !bs[i + 1].free))
  }

  /** Distinct blocks of a well formed list have distinct addresses. */
  lemma AddrUnique(bs: seq<Block>, brk: nat, a: nat, b: nat)
    requires WellFormed(bs, brk) && a < |bs| && b < |bs| && bs[a].addr == bs[b].addr
    ensures a == b
  {
    if a < b {
      Apart(bs, brk, a, b);
      assert false;
    } else if b < a {
      Apart(bs, brk, b, a);
      assert false;
    }
  }

  /** Freeing a block whose predecessor is in use leaves a free block at
      the same place and address. */
  lemma FreeKeepsPlace(bs: seq<Block>, i: nat)
    requires i < |bs| && (i == 0 || !bs[i - 1].free)
    ensures i < |FreeAt(bs, i)| && FreeAt(bs, i)[i].addr == bs[i].addr
    ensures FreeAt(bs, i)[i].free && FreeAt(bs, i)[i].size >= bs[i].size
  {
    var lo, hi, x, t := FreeShape(bs, i);
    assert FreeAt(bs, i)[lo] == x;
    if hi == i + 2 {
      assert FreeAt(bs, i) == MergeAt(bs[i := bs[i].(free := true)], i);
    }
  }

  /** What the header at the old block says after mm_malloc: the request
      when mm_malloc handed the block itself out again, its freed size
      otherwise (also when growing the heap dropped it off the list, since
      nothing writes to it then). */
  function SizeAfterAlloc(f: seq<Block>, g: Grant, i: nat): nat
    requires i < |f|
  {
    match BlockAt(g.blocks, f[i].addr + H)
    case Some(j) => g.blocks[j].size
    case None => f[i].size
  }

  lemma SizeAfterAllocIs(f: seq<Block>, brk: nat, limit: nat, size: nat, i: nat)
    requires WellFormed(f, brk) && i < |f| && size > 0
    requires AllocSpec(f, brk, limit, size).p != 0
    ensures SizeAfterAlloc(f, AllocSpec(f, brk, limit, size), i)
            == if FirstFit(f, size) == i then size else f[i].size
  {
    var k := FirstFit(f, size);
    if k >= 0 {
      SizeAfterReuse(f, brk, size, i, k);
    } else {
      SizeAfterGrow(f, brk, size, i);
    }
  }

  lemma SizeAfterReuse(f: seq<Block>, brk: nat, size: nat, i: nat, k: nat)
    requires WellFormed(f, brk) && i < |f| && k < |f| && Fits(f[k], size)
    ensures var r := Reused(f, k, size);
            match BlockAt(r, f[i].addr + H)
            case Some(j) => r[j].size == if k == i then size else f[i].size
            case None => false
  {
    var r := Reused(f, k, size);
    ReusedAt(f, k, size);
    ReusedWellFormed(f, brk, k, size);
    var at := if k < i && f[k].size - size >= H then i + 1 else i;
    if f[k].size - size >= H {
      assert r == SplitAt(f, k, size);
      if k < i {
        assert r[at] == f[i];
      } else if k > i {
        assert r[at] == f[i];
      }
    }
    assert at < |r| && r[at].addr == f[i].addr;
    assert r[at].size == if k == i then size else f[i].size;
    match BlockAt(r, f[i].addr + H)
    case Some(j) =>
      AddrUnique(r, brk, j, at);
    case None =>
  }

  lemma SizeAfterGrow(f: seq<Block>, brk: nat, size: nat, i: nat)
    requires WellFormed(f, brk) && i < |f|
    ensures var r := [f[0], Block(brk, size, false, f[0].addr)];
            match BlockAt(r, f[i].addr + H)
            case Some(j) => r[j].size == f[i].size
            case None => true
  {
    var r := [f[0], Block(brk, size, false, f[0].addr)];
    assert End(f[i]) <= brk;
    match BlockAt(r, f[i].addr + H)
    case Some(j) =>
      assert j == 0;
      AddrUnique(f, brk, 0, i);
    case None =>
  }

  /** The state mm_realloc returns and leaves behind. */
  datatype Moved = Moved(q: nat, blocks: seq<Block>, brk: nat, mem: nat -> byte)

  /** mm_realloc(p, size) on values: size 0 frees; NULL allocates; a
      smaller size splits in place; otherwise the block is freed, a new
      one allocated, and m->size bytes copied from the old contents, with
      m->size read from the old header after the allocation. If the
      allocation fails the old header is marked in use again. */
  function ReallocSpec(bs: seq<Block>, brk: nat, limit: nat, mem: nat -> byte, p: nat, size: nat): (o: Moved)
    requires p == 0 || BlockAt(bs, p).Some?
    requires p != 0 ==> ReallocReady(bs, BlockAt(bs, p).value, size)
    ensures size == 0 ==> o.q == 0 && o.brk == brk && o.mem == mem
    ensures size > 0 && p == 0 ==> o.q == AllocSpec(bs, brk, limit, size).p
                                   && o.blocks == AllocSpec(bs, brk, limit, size).blocks
  {
    if size == 0 then
      Moved(0, if p == 0 then bs else FreeAt(bs, BlockAt(bs, p).value), brk, mem)
    else if p == 0 then
      var g := AllocSpec(bs, brk, limit, size);
      Moved(g.p, g.blocks, g.brk, AllocMem(mem, g))
    else
      var i := BlockAt(bs, p).value;
      if size < bs[i].size then Moved(p, SplitAt(bs, i, size), brk, mem)
      else MovedSpec(bs, brk, limit, mem, i, size)
  }

  /** The moving branch of mm_realloc for block i. */
  function MovedSpec(bs: seq<Block>, brk: nat, limit: nat, mem: nat -> byte, i: nat, size: nat): Moved
    requires i < |bs| && (i == 0 || !bs[i - 1].free)
  {
    FreeKeepsPlace(bs, i);
    PlacedSpec(FreeAt(bs, i), brk, limit, mem, i, bs[i].addr + H, size)
  }

  /** What follows mm_free there, with f the list it left and p the old
      contents pointer: mm_malloc, then memcpy of m->size bytes, or
      m->free = 0 when mm_malloc fails. */
  function PlacedSpec(f: seq<Block>, brk: nat, limit: nat, mem: nat -> byte, i: nat, p: nat, size: nat): Moved
    requires i < |f|
  {
    var g := AllocSpec(f, brk, limit, size);
    if g.p == 0 then Moved(0, f[i := f[i].(free := false)], brk, mem)
    else
      Moved(g.p, g.blocks, g.brk,
            Copied(AllocMem(mem, g), g.p, p, SizeAfterAlloc(f, g, i)))
  }

  /** Shrinking splits in place: the same pointer, the contents untouched,
      the block now records the smaller size and bytes are conserved. */
  lemma ReallocShrinks(bs: seq<Block>, brk: nat, limit: nat, mem: nat -> byte, p: nat, size: nat)
    requires BlockAt(bs, p).Some? && ReallocReady(bs, BlockAt(bs, p).value, size)
    requires 0 < size < bs[BlockAt(bs, p).value].size
    ensures var o := ReallocSpec(bs, brk, limit, mem, p, size);
            var i := BlockAt(bs, p).value;
            && o.q == p && o.mem == mem && o.brk == brk
            && o.blocks[i].addr + H == p && o.blocks[i].size == size && !o.blocks[i].free
            && Footprint(o.blocks) == Footprint(bs)
  {
    SplitConserves(bs, BlockAt(bs, p).value, size);
  }

  /** A non-NULL result of mm_realloc is the contents pointer of a block in
      use that records the requested size; a NULL result for a non-zero
      size (mm_malloc failed in the moving branch) leaves the break and the
      bytes alone and the old block in use at p again. */
  lemma ReallocGrantsBlock(bs: seq<Block>, brk: nat, limit: nat, mem: nat -> byte, p: nat, size: nat)
    requires p == 0 || BlockAt(bs, p).Some?
    requires p != 0 ==> ReallocReady(bs, BlockAt(bs, p).value, size)
    ensures var o := ReallocSpec(bs, brk, limit, mem, p, size);
            o.q != 0 ==> size > 0 && exists j :: 0 <= j < |o.blocks| && o.blocks[j].addr + H == o.q
                                                 && !o.blocks[j].free && o.blocks[j].size == size
    ensures var o := ReallocSpec(bs, brk, limit, mem, p, size);
            size > 0 && p != 0 && o.q == 0 ==>
              && o.brk == brk && o.mem == mem
              && exists j :: 0 <= j < |o.blocks| && o.blocks[j].addr + H == p && !o.blocks[j].free
  {
    if size > 0 {
      if p == 0 {
        AllocGrantsBlock(bs, brk, limit, size);
      } else {
        var i := BlockAt(bs, p).value;
        if size < bs[i].size {
          assert SplitAt(bs, i, size)[i] == bs[i].(size := size, free := false);
        } else {
          var f := FreeAt(bs, i);
          FreeKeepsPlace(bs, i);
          AllocGrantsBlock(f, brk, limit, size);
          PlacedCases(f, brk, limit, mem, i, p, size);
          assert f[i := f[i].(free := false)][i].addr + H == p;
        }
      }
    }
  }

  /** mm_realloc keeps the list well formed. */
  lemma ReallocWellFormed(bs: seq<Block>, brk: nat, limit: nat, mem: nat -> byte, p: nat, size: nat)
    requires WellFormed(bs, brk)
    requires p == 0 || BlockAt(bs, p).Some?
    requires p != 0 ==> ReallocReady(bs, BlockAt(bs, p).value, size)
    ensures var o := ReallocSpec(bs, brk, limit, mem, p, size);
            WellFormed(o.blocks, o.brk) && (o.brk > brk ==> o.brk <= limit)
  {
    if size == 0 {
      if p != 0 {
        FreeWellFormed(bs, brk, BlockAt(bs, p).value);
      }
    } else if p == 0 {
      AllocWellFormed(bs, brk, limit, size);
    } else {
      var i := BlockAt(bs, p).value;
      if size < bs[i].size {
        SplitWellFormed(bs, brk, i, size);
      } else {
        ReallocGrowWellFormed(bs, brk, limit, i, size);
      }
    }
  }

  /** PlacedSpec by the outcome of mm_malloc. */
  lemma PlacedCases(f: seq<Block>, brk: nat, limit: nat, mem: nat -> byte, i: nat, p: nat, size: nat)
    requires i < |f|
    ensures var g := AllocSpec(f, brk, limit, size);
            var o := PlacedSpec(f, brk, limit, mem, i, p, size);
            && (g.p == 0 ==> o == Moved(0, f[i := f[i].(free := false)], brk, mem))
            && (g.p != 0 ==> o == Moved(g.p, g.blocks, g.brk,
                                        Copied(AllocMem(mem, g), g.p, p, SizeAfterAlloc(f, g, i))))
  {
  }

  /** What Heap.Move needs before mm_free: block i is found from its
      contents pointer, and once freed it is still at index i. */
  lemma MoveReady(bs: seq<Block>, brk: nat, limit: nat, mem: nat -> byte, i: nat, size: nat)
    requires WellFormed(bs, brk) && i < |bs| && (i == 0 || !bs[i - 1].free)
    ensures BlockAt(bs, bs[i].addr + H) == Some(i)
    ensures i < |FreeAt(bs, i)| && FreeAt(bs, i)[i].addr == bs[i].addr
    ensures MovedSpec(bs, brk, limit, mem, i, size)
            == PlacedSpec(FreeAt(bs, i), brk, limit, mem, i, bs[i].addr + H, size)
  {
    FreeKeepsPlace(bs, i);
    var r := BlockAt(bs, bs[i].addr + H);
    assert r.Some?;
    AddrUnique(bs, brk, r.value, i);
  }

  lemma ReallocGrowWellFormed(bs: seq<Block>, brk: nat, limit: nat, i: nat, size: nat)
    requires WellFormed(bs, brk) && i < |bs| && (i == 0 || !bs[i - 1].free)
    ensures var f := FreeAt(bs, i);
            var g := AllocSpec(f, brk, limit, size);
            && i < |f|
            && WellFormed(f[i := f[i].(free := false)], brk)
            && WellFormed(g.blocks, g.brk) && (g.brk > brk ==> g.brk <= limit)
  {
    var f := FreeAt(bs, i);
    FreeWellFormed(bs, brk, i);
    FreeKeepsPlace(bs, i);
    AllocWellFormed(f, brk, limit, size);
    ReplaceWellFormed(f, brk, i, f[i].(free := false));
  }

  /** Growing a block with no free neighbour: mm_free leaves it where it
      was with its size, and the m->size bytes mm_realloc then copies are
      at most the size requested, so the copy stays inside the block
      mm_malloc granted (whose recorded size is the request,
      AllocGrantsBlock). */
  lemma ReallocCopyFits(bs: seq<Block>, brk: nat, limit: nat, i: nat, size: nat)
    requires WellFormed(bs, brk) && i < |bs| && 0 < size && bs[i].size <= size
    requires (i == 0 || !bs[i - 1].free) && (i + 1 == |bs| || !bs[i + 1].free)
    ensures var f := FreeAt(bs, i);
            var g := AllocSpec(f, brk, limit, size);
            && i < |f| && f[i].size == bs[i].size
            && (g.p != 0 ==> SizeAfterAlloc(f, g, i) <= size)
  {
    var f := FreeAt(bs, i);
    assert f == bs[i := bs[i].(free := true)];
    FreeWellFormed(bs, brk, i);
    CopyFits(f, brk, limit, i, size);
  }

  /** When block i of f is no larger than the request, the m->size that
      mm_realloc reads after a successful mm_malloc is at most the request. */
  lemma CopyFits(f: seq<Block>, brk: nat, limit: nat, i: nat, size: nat)
    requires WellFormed(f, brk) && i < |f| && 0 < size && f[i].size <= size
    ensures var g := AllocSpec(f, brk, limit, size);
            g.p != 0 ==> SizeAfterAlloc(f, g, i) <= size
  {
    if AllocSpec(f, brk, limit, size).p != 0 {
      SizeAfterAllocIs(f, brk, limit, size, i);
    }
  }

  /** In a well formed list, block i is the one found from its contents
      pointer. */
  lemma BlockAtIndex(bs: seq<Block>, brk: nat, i: nat)
    requires WellFormed(bs, brk) && i < |bs|
    ensures BlockAt(bs, bs[i].addr + H) == Some(i)
  {
    var r := BlockAt(bs, bs[i].addr + H);
    assert r.Some?;
    AddrUnique(bs, brk, r.value, i);
  }

  /** The heap of the overrun below: four blocks, the third one in use
      between an in-use block and a free one. mm_free of block 2 merges
      the free block after it into it, leaving 1048 bytes. */
  lemma OverrunHeap()
    ensures var bs := [Block(4096, 64, true, 0), Block(4192, 16, false, 4096),
                       Block(4240, 16, false, 4192), Block(4288, 1000, true, 4240)];
            && WellFormed(bs, 5320) && NoAdjacentFree(bs)
            && BlockAt(bs, 4272) == Some(2) && PrevAccurate(bs, 2) && !bs[1].free
            && FreeAt(bs, 2) == [bs[0], bs[1], Block(4240, 1048, true, 4192)]
  {
    var bs := [Block(4096, 64, true, 0), Block(4192, 16, false, 4096),
               Block(4240, 16, false, 4192), Block(4288, 1000, true, 4240)];
    forall a, b
      ensures Ordered(bs, a, b)
    {
    }
    BlockAtIndex(bs, 5320, 2);
    assert FreeAt(bs, 2) == MergeAt(bs[2 := bs[2].(free := true)], 2);
  }

  /** The defect when the successor is free: in this heap of four blocks,
      mm_realloc(4272, 48) frees block 2 (in use, 16 bytes), which absorbs
      the free 1000-byte block after it; mm_malloc hands out the first
      block at 4128, and the header of block 2 now says 1048, so memcpy
      writes 1048 bytes from 4128 on, across the header of block 1, which
      stays on the list. */
  lemma ReallocCopyOverruns()
    ensures var bs := [Block(4096, 64, true, 0), Block(4192, 16, false, 4096),
                       Block(4240, 16, false, 4192), Block(4288, 1000, true, 4240)];
            var f := FreeAt(bs, 2);
            var g := AllocSpec(f, 5320, 0x10_0000, 48);
            && WellFormed(bs, 5320) && NoAdjacentFree(bs)
            && BlockAt(bs, 4272) == Some(2) && PrevAccurate(bs, 2) && !bs[1].free
            && g.p == 4128 && SizeAfterAlloc(f, g, 2) == 1048
            && bs[1] in g.blocks && g.p < bs[1].addr && bs[1].addr + H <= g.p + SizeAfterAlloc(f, g, 2)
  {
    var bs := [Block(4096, 64, true, 0), Block(4192, 16, false, 4096),
               Block(4240, 16, false, 4192), Block(4288, 1000, true, 4240)];
    OverrunHeap();
    var f := FreeAt(bs, 2);
    FreeWellFormed(bs, 5320, 2);
    var g := AllocSpec(f, 5320, 0x10_0000, 48);
    assert FirstFit(f, 48) == 0;
    assert g.blocks == [Block(4096, 48, false, 0), bs[1], Block(4240, 1048, true, 4192)];
    AllocWellFormed(f, 5320, 0x10_0000, 48);
    BlockAtIndex(g.blocks, g.brk, 2);
  }

  /** The defect: growing a block that, once freed, is the first fit for
      the new size hands the same block back with its contents zeroed,
      since mm_malloc clears them before mm_realloc copies them over
      themselves. */
  lemma ReallocZeroesContents(bs: seq<Block>, brk: nat, limit: nat, mem: nat -> byte, p: nat, size: nat)
    requires WellFormed(bs, brk)
    requires BlockAt(bs, p).Some? && ReallocReady(bs, BlockAt(bs, p).value, size)
    requires size > 0 && size >= bs[BlockAt(bs, p).value].size
    requires FirstFit(FreeAt(bs, BlockAt(bs, p).value), size) == BlockAt(bs, p).value
    ensures var o := ReallocSpec(bs, brk, limit, mem, p, size);
            o.q == p && forall a: nat :: p <= a < p + size ==> o.mem(a) == 0
  {
    var i := BlockAt(bs, p).value;
    var f := FreeAt(bs, i);
    FreeKeepsPlace(bs, i);
    FreeWellFormed(bs, brk, i);
    SizeAfterAllocIs(f, brk, limit, size, i);
  }

  /** A one-block heap whose contents are all 7: mm_realloc to the same
      size returns the same pointer with the contents zeroed. */
  lemma ReallocSameSizeExample()
    ensures var bs := [Block(4096, 64, false, 0)];
            var o := ReallocSpec(bs, 4096 + H + 64, 0x10_0000, (a: nat) => 7, 4096 + H, 64);
            o.q == 4096 + H && o.mem(4096 + H) == 0
  {
    var bs := [Block(4096, 64, false, 0)];
    assert BlockAt(bs, 4096 + H) == Some(0);
    assert FreeAt(bs, 0) == [Block(4096, 64, true, 0)];
    ReallocZeroesContents(bs, 4096 + H + 64, 0x10_0000, (a: nat) => 7, 4096 + H, 64);
  }

  /** The moving branch of mm_realloc as evidently intended: the same
      steps, but the old contents are copied as they were before mm_malloc
      cleared the new block, and only as many bytes as block i held before
      mm_free, whatever it merged. */
  function KeptMoved(bs: seq<Block>, brk: nat, limit: nat, mem: nat -> byte, i: nat, size: nat): (o: Moved)
    requires i < |bs| && (i == 0 || !bs[i - 1].free)
  {
    var w := MovedSpec(bs, brk, limit, mem, i, size);
    if w.q == 0 then w
    else
      var g := AllocSpec(FreeAt(bs, i), brk, limit, size);
      var p, n := bs[i].addr + H, bs[i].size;
      w.(mem := (a: nat) => if w.q <= a < w.q + n then mem(p + (a - w.q)) else AllocMem(mem, g)(a))
  }

  /** The corrected branch, with any successor (free or not): the list
      stays well formed, and when it grows a block the copy writes only
      inside the block mm_malloc granted, which is in use and records the
      request, at least as many bytes as block i held. */
  lemma KeptMovedFits(bs: seq<Block>, brk: nat, limit: nat, mem: nat -> byte, i: nat, size: nat)
    requires WellFormed(bs, brk) && i < |bs| && (i == 0 || !bs[i - 1].free) && 0 < size && bs[i].size <= size
    ensures var o := KeptMoved(bs, brk, limit, mem, i, size);
            var g := AllocSpec(FreeAt(bs, i), brk, limit, size);
            && WellFormed(o.blocks, o.brk)
            && (o.q != 0 ==> exists j :: 0 <= j < |o.blocks| && o.blocks[j].addr + H == o.q
                                         && !o.blocks[j].free && o.blocks[j].size == size)
            && (o.q != 0 ==> forall a: nat :: a < o.q || o.q + size <= a ==> o.mem(a) == AllocMem(mem, g)(a))
  {
    var f := FreeAt(bs, i);
    FreeKeepsPlace(bs, i);
    ReallocGrowWellFormed(bs, brk, limit, i, size);
    AllocGrantsBlock(f, brk, limit, size);
  }

  /** The intended property: whenever the corrected branch returns a new
      block, it starts with the old block's contents, all of them, and the
      list and the break are those of the code as written. This holds by
      the definition of KeptMoved; KeptMovedFits shows the copy is safe. */
  lemma KeptMovedContents(bs: seq<Block>, brk: nat, limit: nat, mem: nat -> byte, i: nat, size: nat)
    requires i < |bs| && (i == 0 || !bs[i - 1].free)
    ensures var o := KeptMoved(bs, brk, limit, mem, i, size);
            var w := MovedSpec(bs, brk, limit, mem, i, size);
            && o.q == w.q && o.blocks == w.blocks && o.brk == w.brk
            && (o.q != 0 ==>
                  forall a: nat :: o.q <= a < o.q + bs[i].size ==> o.mem(a) == mem(bs[i].addr + H + (a - o.q)))
  {
  }

  // ---------------------------------------------------------------------
  // The heap.

  class Heap {
    /** The list from head, in order. */
    var blocks: seq<Block>
    /** Content bytes. */
    var mem: nat -> byte
    /** The program break. */
    var brk: nat
    /** sbrk fails once the break would pass this address. */
    const limit: nat
    /** The break before the first sbrk, never 0: sbrk does not hand out
        address NULL, so no header ever sits there. */
    const base: nat

    ghost predicate Valid()
      reads this
    {
      && WellFormed(blocks, brk) && 0 < base <= brk <= limit
      && (blocks != [] ==> base <= blocks[0].addr)
    }

    /** The pointer head holds, 0 for NULL. */
    function Head(): (a: nat)
      reads this
      ensures a == 0 <==> blocks == [] || blocks[0].addr == 0
      ensures Valid() ==> (a == 0 <==> blocks == [])
    {
      if blocks == [] then 0 else blocks[0].addr
    }

    constructor (start: nat, ceiling: nat, initial: nat -> byte)
      requires 0 < start <= ceiling
      ensures Valid() && blocks == [] && brk == start && base == start && limit == ceiling && mem == initial
    {
      blocks := [];
      mem := initial;
      brk := start;
      base := start;
      limit := ceiling;
    }

    /** sbrk(n): the old break, moved up by n, or -1 when that would pass
        the limit. */
    method Sbrk(n: nat) returns (addr: int)
      requires Valid()
      modifies this`brk
      ensures Valid()
      ensures old(brk) + n <= limit ==> addr == old(brk) && brk == old(brk) + n
      ensures old(brk) + n > limit ==> addr == -1 && brk == old(brk)
    {
      if brk + n > limit {
        addr := -1;
      } else {
        addr := brk;
        brk := brk + n;
      }
    }

    /** split(m, size) with m the header of block i. The C code relies on
        the caller for m.size - size >= H; below that size_t arithmetic
        wraps. */
    method Split(i: nat, size: nat)
      requires Valid() && i < |blocks| && blocks[i].size >= size + H
      modifies this`blocks
      ensures Valid()
      ensures blocks == SplitAt(old(blocks), i, size)
    {
      SplitWellFormed(blocks, brk, i, size);
      var m := blocks[i];
      var n := Block(m.addr + H + size, m.size - size - H, true, m.addr);
      blocks := blocks[..i] + [m.(size := size, free := false), n] + blocks[i + 1..];
    }

    /** merge(m0, m1) with m0 the header of block i and m1 its successor. */
    method Merge(i: nat)
      requires Valid() && i + 1 < |blocks|
      modifies this`blocks
      ensures Valid()
      ensures blocks == MergeAt(old(blocks), i)
    {
      MergeWellFormed(blocks, brk, i);
      var m0, m1 := blocks[i], blocks[i + 1];
      var rest := blocks[i + 2..];
      if rest != [] {
        rest := [rest[0].(prev := m0.addr)] + rest[1..];
      }
      blocks := blocks[..i] + [m0.(size := m0.size + H + m1.size)] + rest;
    }

    /** The reuse branch of mm_malloc's two first-fit tests: zero the
        first size content bytes, then split or take the block whole. */
    method Reuse(i: nat, size: nat) returns (p: nat)
      requires Valid() && i < |blocks| && Fits(blocks[i], size)
      modifies this`blocks, this`mem
      ensures Valid()
      ensures p == old(blocks[i].addr) + H
      ensures blocks == Reused(old(blocks), i, size)
      ensures mem == Zeroed(old(mem), p, size)
    {
      ReusedWellFormed(blocks, brk, i, size);
      mem := Zeroed(mem, blocks[i].addr + H, size);
      if blocks[i].size - size >= H {
        Split(i, size);
      } else {
        blocks := blocks[i := blocks[i].(size := size, free := false)];
      }
      p := blocks[i].addr + H;
    }

    /** mm_malloc(size). */
    method Malloc(size: nat) returns (p: nat)
      requires Valid() && size + H < SizeLimit
      modifies this
      ensures Valid()
      ensures var g := AllocSpec(old(blocks), old(brk), limit, size);
              && p == g.p && blocks == g.blocks && brk == g.brk
              && mem == AllocMem(old(mem), g)
    {
      AllocWellFormed(blocks, brk, limit, size);
      if size == 0 {
        return 0;
      }
      if Head() == 0 {
        p := StartHeap(size);
        return;
      }
      // m walks the list from head while m->next is not NULL; last is set
      // to head, and its update under m->next == NULL can never run there.
      var i := 0;
      while i + 1 < |blocks|
        invariant 0 <= i < |blocks| && blocks == old(blocks) && mem == old(mem) && brk == old(brk)
        invariant forall j :: 0 <= j < i ==> !Fits(blocks[j], size)
      {
        if Fits(blocks[i], size) {
          p := Reuse(i, size);
          return;
        }
        i := i + 1;
      }
      if Fits(blocks[i], size) {
        p := Reuse(i, size);
        return;
      }
      p := AppendAfterHead(size);
    }

    /** The head == NULL branch of mm_malloc: sbrk room for a header and
        the contents, zero it all, and make that block the whole list. */
    method StartHeap(size: nat) returns (p: nat)
      requires Valid() && blocks == [] && 0 < size
      modifies this`blocks, this`mem, this`brk
      ensures Valid()
      ensures var g := AllocSpec(old(blocks), old(brk), limit, size);
              && p == g.p && blocks == g.blocks && brk == g.brk
              && mem == AllocMem(old(mem), g)
    {
      var start := Sbrk(size + H);
      if start == -1 {
        return 0;
      }
      mem := Zeroed(mem, start, size + H);
      blocks := [Block(start, size, false, 0)];
      p := start + H;
    }

    /** The end of mm_malloc when no block fits: sbrk a new block, zero
        it, and link it after last, which is still head, so any blocks
        after head leave the list. */
    method AppendAfterHead(size: nat) returns (p: nat)
      requires Valid() && blocks != [] && 0 < size && FirstFit(blocks, size) < 0
      modifies this`blocks, this`mem, this`brk
      ensures Valid()
      ensures var g := AllocSpec(old(blocks), old(brk), limit, size);
              && p == g.p && blocks == g.blocks && brk == g.brk
              && mem == AllocMem(old(mem), g)
    {
      AllocWellFormed(blocks, brk, limit, size);
      var last := 0;
      var addr := Sbrk(size + H);
      if addr == -1 {
        return 0;
      }
      mem := Zeroed(mem, addr, size + H);
      blocks := blocks[..last + 1] + [Block(addr, size, false, blocks[last].addr)];
      p := addr + H;
    }

    /** mm_free(p). p is NULL or the contents pointer of a block on the
        list whose prev field is accurate: free looks only at m->prev, so
        a back-link left stale by split would merge across other blocks. */
    method Free(p: nat)
      requires Valid()
      requires p == 0 || (BlockAt(blocks, p).Some? && PrevAccurate(blocks, BlockAt(blocks, p).value))
      modifies this`blocks
      ensures Valid()
      ensures p == 0 ==> blocks == old(blocks)
      ensures p != 0 ==> blocks == FreeAt(old(blocks), BlockAt(old(blocks), p).value)
    {
      if p == 0 {
        return;
      }
      var i := BlockAt(blocks, p).value;
      FreeWellFormed(blocks, brk, i);
      PrevNullAtHead(blocks, brk, i);
      ReplaceWellFormed(blocks, brk, i, blocks[i].(free := true));
      blocks := blocks[i := blocks[i].(free := true)];
      // m->prev != NULL exactly when m is not the first block
      var hasPrev, hasNext := blocks[i].prev != 0, i + 1 < |blocks|;
      if hasPrev && blocks[i - 1].free {
        Merge(i - 1);
        if hasNext && blocks[i].free {
          Merge(i - 1);
        }
      } else if hasNext && blocks[i + 1].free {
        Merge(i);
      }
    }

    /** mm_realloc(p, size). */
    method Realloc(p: nat, size: nat) returns (q: nat)
      requires Valid() && size + H < SizeLimit
      requires p == 0 || BlockAt(blocks, p).Some?
      requires p != 0 ==> ReallocReady(blocks, BlockAt(blocks, p).value, size)
      modifies this
      ensures Valid()
      ensures var o := ReallocSpec(old(blocks), old(brk), limit, old(mem), p, size);
              && q == o.q && blocks == o.blocks && brk == o.brk && mem == o.mem
    {
      ReallocWellFormed(blocks, brk, limit, mem, p, size);
      if size == 0 {
        Free(p);
        return 0;
      }
      if p == 0 {
        q := Malloc(size);
        return;
      }
      var i := BlockAt(blocks, p).value;
      if size < blocks[i].size {
        Split(i, size);
        return p;
      }
      q := Move(i, size);
    }

    /** The moving branch of mm_realloc for the block i whose contents
        are at p: mm_free, then the rest in Place. */
    method Move(i: nat, size: nat) returns (q: nat)
      requires Valid() && size + H < SizeLimit && size > 0
      requires i < |blocks| && PrevAccurate(blocks, i) && (i == 0 || !blocks[i - 1].free)
      requires blocks[i].size <= size && (i + 1 == |blocks| || !blocks[i + 1].free)
      modifies this
      ensures var o := MovedSpec(old(blocks), old(brk), limit, old(mem), i, size);
              && q == o.q && blocks == o.blocks && brk == o.brk
              && mem == o.mem
      ensures var f := FreeAt(old(blocks), i);
              q != 0 ==> SizeAfterAlloc(f, AllocSpec(f, old(brk), limit, size), i) <= size
      ensures Valid()
    {
      MoveReady(blocks, brk, limit, mem, i, size);
      ReallocCopyFits(blocks, brk, limit, i, size);
      var p := blocks[i].addr + H;
      Free(p);
      assert blocks == FreeAt(old(blocks), i);
      q := Place(i, p, size);
    }

    /** After mm_free left block i free at its place: mm_malloc, then
        memcpy of m->size bytes from the old contents, or m->free = 0 when
        mm_malloc fails. */
    method Place(i: nat, p: nat, size: nat) returns (q: nat)
      requires Valid() && size + H < SizeLimit && size > 0 && i < |blocks| && p == blocks[i].addr + H
      requires blocks[i].size <= size
      modifies this
      ensures var o := PlacedSpec(old(blocks), old(brk), limit, old(mem), i, p, size);
              && q == o.q && blocks == o.blocks && brk == o.brk && mem == o.mem
      ensures q != 0 ==> SizeAfterAlloc(old(blocks), AllocSpec(old(blocks), old(brk), limit, size), i) <= size
      ensures Valid()
    {
      CopyFits(blocks, brk, limit, i, size);
      var freed := blocks[i];
      ReplaceWellFormed(blocks, brk, i, blocks[i].(free := false));
      PlacedCases(blocks, brk, limit, mem, i, p, size);
      ghost var g := AllocSpec(blocks, brk, limit, size);
      q := Malloc(size);
      if q == 0 {
        blocks := blocks[i := blocks[i].(free := false)];
        return 0;
      }
      // m->size: the header at p - H, which nothing rewrote if it has left the list
      var n := match BlockAt(blocks, p) case Some(j) => blocks[j].size case None => freed.size;
      assert n == SizeAfterAlloc(old(blocks), g, i);
      mem := Copied(mem, q, p, n);
    }

    /** mm_size(p): the recorded size, and for NULL the size_t value of
        -1 * sizeof(struct meta). */
    function Size(p: nat): (n: nat)
      reads this
      requires p == 0 || BlockAt(blocks, p).Some?
      ensures p == 0 ==> n == SizeLimit - H
      ensures p != 0 ==> exists i :: 0 <= i < |blocks| && blocks[i].addr + H == p && blocks[i].size == n
    {
      if p == 0 then SizeLimit - H else blocks[BlockAt(blocks, p).value].size
    }
  }
}
