/**
 What madvise (MADV_WILLNEED) writes into its array (source/madvise.c:411-660), stated with the
 page of 4096 bytes and the stride of 1048576 bytes themselves: one run of entries for the region
 that holds the address, and one for each committed region that the range meets behind it.
 */
module MadviseRules {
  import opened CStrings
  import opened Madvise

  /** Every address in the map is answered with its page, up to the end of the region. */
  lemma PageExactly(m: seq<Region>, j: nat, a: nat)
    requires WellFormed(m) && j < |m| && m[j].base <= a < m[j].base + m[j].size
    ensures Locate(m, a) == j && VirtualQuery(m, a).Some?
    ensures var info := VirtualQuery(m, a).value;
      && info.base % 4096 == 0 && info.base <= a < info.base + 4096
      && info.base + info.size == m[j].base + m[j].size && info.commit == m[j].commit
  {
    LocateUnique(m, a, j);
    AlignedAt(m, j);
    PageAbove(m[j].base, a);
  }

  /** No other address is answered. */
  lemma OutsideExactly(m: seq<Region>, a: nat)
    ensures VirtualQuery(m, a) == None <==>
      forall j :: 0 <= j < |m| ==> a < m[j].base || m[j].base + m[j].size <= a
  {
    var k := Locate(m, a);
    if k == |m| {
      forall j | 0 <= j < |m|
        ensures a < m[j].base || m[j].base + m[j].size <= a
      {
        assert !(m[j].base <= a < m[j].End());
      }
    }
  }

  /** The number of strides that cover `total` bytes: enough, and not one too many. */
  lemma StridesExactly(total: nat, n: nat)
    ensures n == Strides(total) <==> total <= 1048576 * n < total + 1048576
  {
  }

  /** Every entry of a run stands a stride behind the one before it; the last one may be shorter. */
  lemma BlockExactly(start: int, total: nat, rest: nat, k: nat)
    ensures var es := Block(start, total, rest);
      && total <= 1048576 * |es| < total + 1048576
      && (k < |es| ==>
            && es[k].address == start + 1048576 * k
            && es[k].bytes == if 1048576 * (k + 1) <= total then 1048576 else rest)
  {
    StridesExactly(total, |Block(start, total, rest)|);
  }

  /** The entries of a later region, for a range that ends at `end`. */
  function Part(addr: nat, r: Region, end: nat, skip: set<nat>): seq<Entry> {
    if !r.commit || r.base in skip || end <= r.base then []
    else if r.base + r.size < end then Block(r.base, r.size, r.size % 1048576)
    else Block(addr, end - r.base, (addr - r.base + r.size) % 1048576)
  }

  function Parts(addr: nat, regs: seq<Region>, end: nat, skip: set<nat>): (r: seq<seq<Entry>>)
    ensures |r| == |regs| && forall k :: 0 <= k < |regs| ==> r[k] == Part(addr, regs[k], end, skip)
  {
    if regs == [] then [] else [Part(addr, regs[0], end, skip)] + Parts(addr, regs[1..], end, skip)
  }

  lemma AdjacentRest(regs: seq<Region>)
    requires Adjacent(regs) && regs != []
    ensures Adjacent(regs[1..]) && (|regs| > 1 ==> regs[1..][0].base == regs[0].base + regs[0].size)
  {
    var rest := regs[1..];
    assert forall k :: 0 <= k < |rest| ==> rest[k] == regs[k + 1];
    forall k | 0 <= k < |rest| - 1
      ensures rest[k + 1].base == rest[k].End()
    {
      assert regs[(k + 1) + 1].base == regs[k + 1].End();
    }
  }

  lemma {:induction false} NothingBehind(addr: nat, regs: seq<Region>, end: nat, skip: set<nat>)
    requires Adjacent(regs) && (regs != [] ==> end <= regs[0].base)
    ensures Flatten(Parts(addr, regs, end, skip)) == []
    decreases |regs|
  {
    if regs != [] {
      AdjacentRest(regs);
      NothingBehind(addr, regs[1..], end, skip);
      assert Parts(addr, regs, end, skip)[1..] == Parts(addr, regs[1..], end, skip);
    }
  }

  /** The walk over the later regions writes the entries of each region in turn. */
  lemma {:induction false} FillExactly(addr: nat, regs: seq<Region>, left: nat, skip: set<nat>)
    requires Adjacent(regs) && regs != []
    ensures Fill(addr, regs, left, skip) == Flatten(Parts(addr, regs, regs[0].base + left, skip))
    decreases |regs|
  {
    var r, end := regs[0], regs[0].base + left;
    var parts := Parts(addr, regs, end, skip);
    AdjacentRest(regs);
    assert parts[1..] == Parts(addr, regs[1..], end, skip);
    if r.size < left && regs[1..] != [] {
      FillExactly(addr, regs[1..], left - r.size, skip);
    } else {
      NothingBehind(addr, regs[1..], end, skip);
      assert Fill(addr, regs[1..], left - Min(r.size, left), skip) == [];
    }
    FillFront(addr, regs, left, skip, Flatten(parts[1..]));
  }

  lemma FillFront(addr: nat, regs: seq<Region>, left: nat, skip: set<nat>, more: seq<Entry>)
    requires regs != []
    requires more == if left == 0 then [] else Fill(addr, regs[1..], left - Min(regs[0].size, left), skip)
    ensures Fill(addr, regs, left, skip) == Part(addr, regs[0], regs[0].base + left, skip) + more
  {
  }

  /**
   The array after the walk over the map m, for an address in region j: a run for that region, which
   is taken to be longer by twice the offset of the address in its page, and the runs of the regions
   behind it. A range that ends in the region has a run of its own, whose last entry is as long as
   the region's would be.
   */
  lemma EntriesExactly(m: seq<Region>, j: nat, addr: nat, len: nat, skip: set<nat>)
    requires WellFormed(m) && j < |m| && m[j].base <= addr < m[j].base + m[j].size
    ensures VirtualQuery(m, addr).Some?
    ensures var stop := m[j].base + m[j].size;
      var d := stop - addr + 2 * (addr % 4096);
      FillAll(m, addr, len, skip) ==
        if len <= d then Block(addr, len, d % 1048576)
        else Block(addr, d, d % 1048576) + Flatten(Parts(addr, m[j + 1..], stop + (len - d), skip))
  {
    PageExactly(m, j, addr);
    var stop := m[j].base + m[j].size;
    var d := stop - addr + 2 * (addr % 4096);
    assert FirstSpan(m, addr) == d;
    var regs := m[j + 1..];
    AdjacentBehind(m, j + 1);
    if d < len {
      if regs == [] {
        assert Fill(addr, regs, len - d, skip) == [];
      } else {
        FillExactly(addr, regs, len - d, skip);
      }
    }
  }

  lemma AdjacentBehind(m: seq<Region>, j: nat)
    requires Adjacent(m) && 0 < j <= |m|
    ensures Adjacent(m[j..]) && (j < |m| ==> m[j..][0].base == m[j - 1].base + m[j - 1].size)
  {
    var rest := m[j..];
    assert j < |m| ==> m[(j - 1) + 1].base == m[j - 1].End();
    forall k | 0 <= k < |rest| - 1
      ensures rest[k + 1].base == rest[k].End()
    {
      assert m[(j + k) + 1].base == m[j + k].End();
    }
  }

  /** The number of entries that is counted before the array is mapped. */
  lemma CountExactly(m: seq<Region>, j: nat, addr: nat, len: nat)
    requires WellFormed(m) && j < |m| && m[j].base <= addr < m[j].base + m[j].size
    ensures VirtualQuery(m, addr).Some?
    ensures var stop := m[j].base + m[j].size;
      var d := stop - addr + 2 * (addr % 4096);
      CountAll(m, addr, len, {}) ==
        if len <= d then |Block(addr, len, d % 1048576)|
        else |Block(addr, d, d % 1048576)| + |Flatten(Parts(addr, m[j + 1..], stop + (len - d), {}))|
  {
    EntriesExactly(m, j, addr, len, {});
    FillAllLength(m, addr, len, {});
  }

  /** A free region of the map, or nothing. */
  function Rest(base: nat, size: nat): seq<Region> {
    if size == 0 then [] else [Region(base, size, false)]
  }

  /** Every mapping of whole pages inside a free region is one that the results on both walks cover. */
  lemma EveryMappingSplits(pre: seq<Region>, r: Region, post: seq<Region>, p: nat, b: nat)
    requires !r.commit && r.base <= p && p + b <= r.base + r.size
    requires b > 0 && p % 4096 == 0 && b % 4096 == 0
    ensures SplitAt(pre + ([r] + post),
              pre + (Rest(r.base, p - r.base) + [Region(p, b, true)] + Rest(p + b, r.base + r.size - p - b) + post),
              p, b)
  {
    var own := Rest(r.base, p - r.base) + [Region(p, b, true)] + Rest(p + b, r.base + r.size - p - b) + post;
    SplitsHere(r, post, own, p, b);
    SplitsBehind(pre, [r] + post, own, p, b);
  }

  lemma SplitsHere(r: Region, post: seq<Region>, own: seq<Region>, p: nat, b: nat)
    requires !r.commit && r.base <= p && p + b <= r.base + r.size
    requires b > 0 && p % 4096 == 0 && b % 4096 == 0
    requires own == Rest(r.base, p - r.base) + [Region(p, b, true)] + Rest(p + b, r.base + r.size - p - b) + post
    ensures Splits([r] + post, own, 0, p, b)
  {
    assert ([r] + post)[1..] == post;
  }

  lemma {:induction false} SplitsBehind(pre: seq<Region>, m: seq<Region>, m': seq<Region>, p: nat, b: nat)
    requires Splits(m, m', 0, p, b)
    ensures Splits(pre + m, pre + m', |pre|, p, b)
    decreases |pre|
  {
    if pre == [] {
      assert pre + m == m && pre + m' == m';
    } else {
      SplitsBehind(pre[1..], m, m', p, b);
      assert (pre + m)[1..] == pre[1..] + m && (pre + m')[1..] == pre[1..] + m';
    }
  }
}
