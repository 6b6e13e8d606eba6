/**
 madvise with MADV_WILLNEED (source/madvise.c): one walk over the memory regions counts range
 entries, an array of that size is mapped, and a second walk fills it. Mapping the array and its
 descriptor changes the region map between the two walks.
 */
module Madvise {
  import opened CStrings

  const STRIDE := 0x10_0000
  const PAGE := 4096

  // ---------------------------------------------------------------------------------------
  // Regions and VirtualQuery
  // ---------------------------------------------------------------------------------------

  /** A run of pages with the same attributes. */
  datatype Region = Region(base: nat, size: nat, commit: bool) {
    function End(): nat {
      base + size
    }
  }

  /** Regions are nonempty and adjacent. */
  ghost predicate Adjacent(map_: seq<Region>) {
    && (forall k :: 0 <= k < |map_| ==> map_[k].size > 0)
    && (forall k :: 0 <= k < |map_| - 1 ==> map_[k + 1].base == map_[k].End())
  }

  predicate Aligned(map_: seq<Region>) {
    map_ == []
    || (map_[0].base % PAGE == 0 && map_[0].size % PAGE == 0 && Aligned(map_[1..]))
  }

  lemma {:induction false} AlignedAt(map_: seq<Region>, k: nat)
    requires Aligned(map_) && k < |map_|
    ensures map_[k].base % PAGE == 0 && map_[k].size % PAGE == 0
    decreases k
  {
    if k > 0 {
      AlignedAt(map_[1..], k - 1);
    }
  }

  ghost predicate WellFormed(map_: seq<Region>) {
    Adjacent(map_) && Aligned(map_)
  }

  /** The index of the region that holds an address, or the number of regions. */
  function Locate(map_: seq<Region>, a: nat): (k: nat)
    ensures k <= |map_|
    ensures k < |map_| ==> map_[k].base <= a < map_[k].End()
    ensures k == |map_| ==> forall j :: 0 <= j < |map_| ==> !(map_[j].base <= a < map_[j].End())
  {
    if map_ == [] then 0
    else if map_[0].base <= a < map_[0].End() then 0
    else 1 + Locate(map_[1..], a)
  }

  /** MEMORY_BASIC_INFORMATION: the page that holds the address, and the region from there on. */
  datatype Info = Info(base: nat, size: nat, commit: bool)

  function VirtualQuery(map_: seq<Region>, a: nat): (r: Option<Info>)
    ensures r.Some? ==> r.value.base <= a < r.value.base + r.value.size
  {
    var k := Locate(map_, a);
    if k == |map_| then None
    else
      var page := if a - a % PAGE >= map_[k].base then a - a % PAGE else map_[k].base;
      Some(Info(page, map_[k].End() - page, map_[k].commit))
  }

  lemma {:induction false} BasesAscend(map_: seq<Region>, i: nat, j: nat)
    requires Adjacent(map_) && i < j < |map_|
    ensures map_[i].End() <= map_[j].base
    decreases j
  {
    if i < j - 1 {
      BasesAscend(map_, i, j - 1);
    }
  }

  lemma LocateUnique(map_: seq<Region>, a: nat, k: nat)
    requires Adjacent(map_) && k < |map_| && map_[k].base <= a < map_[k].End()
    ensures Locate(map_, a) == k
  {
    var l := Locate(map_, a);
    if l < k {
      BasesAscend(map_, l, k);
    } else if k < l && l < |map_| {
      BasesAscend(map_, k, l);
    }
  }

  /** At the start of a region, the answer is that region. */
  lemma QueryAtBase(map_: seq<Region>, k: nat)
    requires WellFormed(map_) && k < |map_|
    ensures VirtualQuery(map_, map_[k].base)
            == Some(Info(map_[k].base, map_[k].size, map_[k].commit))
  {
    LocateUnique(map_, map_[k].base, k);
    AlignedAt(map_, k);
  }

  lemma QueryPastEnd(map_: seq<Region>)
    requires WellFormed(map_) && map_ != []
    ensures VirtualQuery(map_, map_[|map_| - 1].End()) == None
  {
    var last := map_[|map_| - 1];
    forall j | 0 <= j < |map_| ensures map_[j].End() <= last.End() {
      if j < |map_| - 1 {
        BasesAscend(map_, j, |map_| - 1);
      }
    }
    assert Locate(map_, last.End()) == |map_|;
  }

  // ---------------------------------------------------------------------------------------
  // What the two walks compute
  // ---------------------------------------------------------------------------------------

  /** WIN32_MEMORY_RANGE_ENTRY */
  datatype Entry = Entry(address: int, bytes: nat)

  function Strides(total: nat): nat {
    total / STRIDE + (if total % STRIDE != 0 then 1 else 0)
  }

  function Min(a: nat, b: nat): nat {
    if a <= b then a else b
  }

  /** Whole strides from `start`, and a last entry of `rest` bytes when total is not a multiple. */
  function Block(start: int, total: nat, rest: nat): (r: seq<Entry>)
    ensures |r| == Strides(total)
  {
    seq(total / STRIDE, k => Entry(start + k * STRIDE, STRIDE))
    + (if total % STRIDE != 0 then [Entry(start + total / STRIDE * STRIDE, rest)] else [])
  }

  /** The entries of a later region that ends inside the range. */
  function Tile(r: Region): seq<Entry> {
    Block(r.base, r.size, r.size % STRIDE)
  }

  /** The entries for the last bytes of the range, which the code computes from its start. */
  function LastTile(addr: nat, r: Region, left: nat): seq<Entry> {
    Block(addr, left, (addr - r.base + r.size) % STRIDE)
  }

  /** Does a later region get entries? The two bookkeeping regions are known by their bases. */
  predicate Listed(r: Region, skip: set<nat>) {
    r.commit && r.base !in skip
  }

  /** The walk over the regions after the first, with `left` bytes to go. */
  function Fill(addr: nat, regs: seq<Region>, left: nat, skip: set<nat>): (r: seq<Entry>)
    decreases |regs|
  {
    if regs == [] || left == 0 then []
    else
      var more := Fill(addr, regs[1..], left - Min(regs[0].size, left), skip);
      if !Listed(regs[0], skip) then more
      else if regs[0].size < left then Tile(regs[0]) + more
      else LastTile(addr, regs[0], left) + more
  }

  function Count(regs: seq<Region>, left: nat, skip: set<nat>): (n: nat)
    decreases |regs|
  {
    if regs == [] || left == 0 then 0
    else
      (if Listed(regs[0], skip) then Strides(Min(regs[0].size, left)) else 0)
      + Count(regs[1..], left - Min(regs[0].size, left), skip)
  }

  /** `(size_t) __addr - BaseAddress + RegionSize`, which the code takes for the first region. */
  function FirstSpan(map_: seq<Region>, addr: nat): (d: nat)
    requires VirtualQuery(map_, addr).Some?
    ensures d > 0
  {
    var i := VirtualQuery(map_, addr).value;
    addr - i.base + i.size
  }

  /** The regions after the one that holds addr. */
  function After(map_: seq<Region>, addr: nat): seq<Region>
    requires VirtualQuery(map_, addr).Some?
  {
    map_[Locate(map_, addr) + 1..]
  }

  function CountAll(map_: seq<Region>, addr: nat, len: nat, skip: set<nat>): (n: nat)
    requires VirtualQuery(map_, addr).Some?
  {
    var d := FirstSpan(map_, addr);
    if d < len then Strides(d) + Count(After(map_, addr), len - d, skip) else Strides(len)
  }

  function FillAll(map_: seq<Region>, addr: nat, len: nat, skip: set<nat>): (r: seq<Entry>)
    requires VirtualQuery(map_, addr).Some?
  {
    var d := FirstSpan(map_, addr);
    if d < len then Block(addr, d, d % STRIDE) + Fill(addr, After(map_, addr), len - d, skip)
    else Block(addr, len, d % STRIDE)
  }

  /** On one and the same region map, the filling walk writes as many entries as were counted. */
  lemma {:induction false} FillLength(addr: nat, regs: seq<Region>, left: nat, skip: set<nat>)
    ensures |Fill(addr, regs, left, skip)| == Count(regs, left, skip)
    decreases |regs|
  {
    if regs != [] && left != 0 {
      FillLength(addr, regs[1..], left - Min(regs[0].size, left), skip);
    }
  }

  lemma FillAllLength(map_: seq<Region>, addr: nat, len: nat, skip: set<nat>)
    requires VirtualQuery(map_, addr).Some?
    ensures |FillAll(map_, addr, len, skip)| == CountAll(map_, addr, len, skip)
  {
    var d := FirstSpan(map_, addr);
    if d < len {
      FillLength(addr, After(map_, addr), len - d, skip);
    }
  }

  // ---------------------------------------------------------------------------------------
  // Mapping bookkeeping memory between the walks
  // ---------------------------------------------------------------------------------------

  /** A free region, or what is left of one; nothing when it is empty. */
  function Free(base: nat, size: nat): seq<Region> {
    if size == 0 then [] else [Region(base, size, false)]
  }

  /** The pieces of a free region after b bytes at p have been mapped in it. */
  function Pieces(r: Region, p: nat, b: nat): seq<Region>
    requires r.base <= p && p + b <= r.End()
  {
    Free(r.base, p - r.base) + [Region(p, b, true)] + Free(p + b, r.End() - (p + b))
  }

  /** b bytes at p are mapped inside the k-th region, which was not committed. */
  ghost predicate Splits(m: seq<Region>, m': seq<Region>, k: nat, p: nat, b: nat)
    decreases k
  {
    && m != []
    && if k > 0 then m' != [] && m'[0] == m[0] && Splits(m[1..], m'[1..], k - 1, p, b)
       else
         && !m[0].commit && m[0].base <= p && p + b <= m[0].End()
         && b > 0 && p % PAGE == 0 && b % PAGE == 0
         && m' == Pieces(m[0], p, b) + m[1..]
  }

  lemma {:induction false} SplitForm(m: seq<Region>, m': seq<Region>, k: nat, p: nat, b: nat)
    requires Splits(m, m', k, p, b)
    ensures k < |m| && !m[k].commit && m[k].base <= p && p + b <= m[k].End() && b > 0
    ensures m' == m[..k] + Pieces(m[k], p, b) + m[k + 1..]
    decreases k
  {
    if k > 0 {
      SplitForm(m[1..], m'[1..], k - 1, p, b);
      Assoc([m[0]], m[1..][..k - 1], Pieces(m[k], p, b));
      Assoc([m[0]], m[1..][..k - 1] + Pieces(m[k], p, b), m[k + 1..]);
      assert [m[0]] + m[1..][..k - 1] == m[..k];
      assert m' == [m'[0]] + m'[1..];
    }
  }

  ghost predicate SplitAt(m: seq<Region>, m': seq<Region>, p: nat, b: nat) {
    exists k :: Splits(m, m', k, p, b)
  }

  /** Regions that are not listed only use up bytes. */
  lemma CountUnlisted(r: Region, regs: seq<Region>, left: nat, skip: set<nat>)
    requires !Listed(r, skip)
    ensures Count([r] + regs, left, skip) == Count(regs, left - Min(r.size, left), skip)
  {
    assert ([r] + regs)[1..] == regs;
  }

  lemma CountFree(base: nat, size: nat, regs: seq<Region>, left: nat, skip: set<nat>)
    ensures Count(Free(base, size) + regs, left, skip) == Count(regs, left - Min(size, left), skip)
  {
    if size == 0 {
      assert Free(base, size) + regs == regs;
    } else {
      CountUnlisted(Region(base, size, false), regs, left, skip);
    }
  }

  lemma CountMappedAndFree(p: nat, b: nat, gap: nat, regs: seq<Region>, left: nat, skip: set<nat>)
    requires p in skip
    ensures Count([Region(p, b, true)] + (Free(p + b, gap) + regs), left, skip)
            == Count(regs, left - Min(b + gap, left), skip)
  {
    CountUnlisted(Region(p, b, true), Free(p + b, gap) + regs, left, skip);
    CountFree(p + b, gap, regs, left - Min(b, left), skip);
  }

  lemma PiecesApart(r: Region, p: nat, b: nat, regs: seq<Region>)
    requires r.base <= p && p + b <= r.End()
    ensures Pieces(r, p, b) + regs
            == Free(r.base, p - r.base) + ([Region(p, b, true)] + (Free(p + b, r.End() - (p + b)) + regs))
  {
    Assoc(Free(r.base, p - r.base) + [Region(p, b, true)], Free(p + b, r.End() - (p + b)), regs);
    Assoc(Free(r.base, p - r.base), [Region(p, b, true)], Free(p + b, r.End() - (p + b)) + regs);
  }

  /** The pieces count for nothing, like the free region they came from. */
  lemma {:induction false} CountPieces(r: Region, p: nat, b: nat, regs: seq<Region>, left: nat, skip: set<nat>)
    requires r.base <= p && p + b <= r.End() && p in skip
    ensures Count(Pieces(r, p, b) + regs, left, skip) == Count(regs, left - Min(r.size, left), skip)
  {
    PiecesApart(r, p, b, regs);
    CountParts(r.base, p - r.base, p, b, r.End() - (p + b), regs, left, skip);
  }

  lemma {:induction false} CountParts(base: nat, front: nat, p: nat, b: nat, gap: nat, regs: seq<Region>, left: nat,
                                      skip: set<nat>)
    requires p in skip
    ensures Count(Free(base, front) + ([Region(p, b, true)] + (Free(p + b, gap) + regs)), left, skip) ==
      Count(regs, left - Min(front + b + gap, left), skip)
  {
    CountFree(base, front, [Region(p, b, true)] + (Free(p + b, gap) + regs), left, skip);
    CountMappedAndFree(p, b, gap, regs, left - Min(front, left), skip);
  }

  /** A new skip address that is the base of no region changes nothing. */
  lemma {:induction false} CountSkipMore(regs: seq<Region>, left: nat, skip: set<nat>, p: nat)
    requires forall r :: r in regs ==> r.base != p
    ensures Count(regs, left, skip + {p}) == Count(regs, left, skip)
    decreases |regs|
  {
    if regs != [] && left != 0 {
      CountSkipMore(regs[1..], left - Min(regs[0].size, left), skip, p);
    }
  }

  /** Splitting a region beyond the start of the walk does not change the count. */
  lemma {:induction false} CountSplit(pre: seq<Region>, r: Region, p: nat, b: nat,
                                      post: seq<Region>, left: nat, skip: set<nat>)
    requires !r.commit && r.base <= p && p + b <= r.End()
    requires forall x :: x in pre || x in post ==> x.base != p
    ensures Count(pre + Pieces(r, p, b) + post, left, skip + {p}) == Count(pre + [r] + post, left, skip)
    decreases |pre|
  {
    var ps := Pieces(r, p, b);
    if pre == [] {
      CountSplitHere(r, p, b, post, left, skip);
      assert pre + ps + post == ps + post && pre + [r] + post == [r] + post;
    } else if left != 0 {
      TailOfThree(pre, ps, post);
      TailOfThree(pre, [r], post);
      CountSplit(pre[1..], r, p, b, post, left - Min(pre[0].size, left), skip);
    }
  }

  lemma CountSplitHere(r: Region, p: nat, b: nat, post: seq<Region>, left: nat, skip: set<nat>)
    requires !r.commit && r.base <= p && p + b <= r.End()
    requires forall x :: x in post ==> x.base != p
    ensures Count(Pieces(r, p, b) + post, left, skip + {p}) == Count([r] + post, left, skip)
  {
    CountPieces(r, p, b, post, left, skip + {p});
    CountUnlisted(r, post, left, skip);
    CountSkipMore(post, left - Min(r.size, left), skip, p);
  }

  lemma TailOfThree(a: seq<Region>, b: seq<Region>, c: seq<Region>)
    requires a != []
    ensures (a + b + c)[0] == a[0] && (a + b + c)[1..] == a[1..] + b + c
  {
  }

  lemma StridesMonotone(a: nat, b: nat)
    requires a <= b
    ensures Strides(a) <= Strides(b)
  {
    assert a / STRIDE <= b / STRIDE;
    if a / STRIDE == b / STRIDE {
      assert a % STRIDE <= b % STRIDE;
    }
  }

  lemma PageAbove(base: nat, a: nat)
    requires base % PAGE == 0 && base <= a
    ensures base <= a - a % PAGE
  {
    assert base / PAGE <= a / PAGE;
  }

  /** What VirtualQuery says about an address in a known region. */
  lemma QueryIn(m: seq<Region>, k: nat, a: nat)
    requires WellFormed(m) && k < |m| && m[k].base <= a < m[k].End()
    ensures Locate(m, a) == k
    ensures VirtualQuery(m, a).Some?
    ensures FirstSpan(m, a) == a % PAGE + (m[k].End() - (a - a % PAGE))
    ensures After(m, a) == m[k + 1..]
  {
    LocateUnique(m, a, k);
    AlignedAt(m, k);
    PageAbove(m[k].base, a);
  }

  /** What follows a piece that ends at `end`: the mapping and the free rest, the free rest, or nothing. */
  predicate Follows(r: Region, p: nat, b: nat, after: seq<Region>, end: nat)
    requires p + b <= r.End()
  {
    var last := Free(p + b, r.End() - (p + b));
    || (after == [Region(p, b, true)] + last && end == p)
    || (after == last && end == p + b)
    || (after == [] && end == r.End())
  }

  lemma AfterPiece(r: Region, p: nat, b: nat, i: nat)
    requires r.base <= p && p + b <= r.End() && b > 0 && i < |Pieces(r, p, b)|
    ensures Follows(r, p, b, Pieces(r, p, b)[i + 1..], Pieces(r, p, b)[i].End())
  {
    var ps := Pieces(r, p, b);
    var front, last := Free(r.base, p - r.base), Free(p + b, r.End() - (p + b));
    if i < |front| {
      assert ps[i] == front[i];
      assert ps[i + 1..] == [Region(p, b, true)] + last;
    } else if i == |front| {
      assert ps[i] == Region(p, b, true) && ps[i + 1..] == last;
    } else {
      assert ps[i] == last[0] && ps[i + 1..] == [];
    }
  }

  lemma {:induction false} CountMappedFirst(p: nat, b: nat, gap: nat, after: seq<Region>, post: seq<Region>, left: nat,
                                            skip: set<nat>)
    requires p in skip && after == [Region(p, b, true)] + Free(p + b, gap)
    ensures Count(after + post, left, skip) == Count(post, left - Min(b + gap, left), skip)
  {
    Assoc([Region(p, b, true)], Free(p + b, gap), post);
    CountMappedAndFree(p, b, gap, post, left, skip);
  }

  lemma {:induction false} CountFollowing(r: Region, p: nat, b: nat, after: seq<Region>, end: nat, post: seq<Region>,
                                          left: nat, skip: set<nat>)
    requires p + b <= r.End() && p in skip && Follows(r, p, b, after, end)
    ensures end <= r.End() && Count(after + post, left, skip) == Count(post, left - Min(r.End() - end, left), skip)
  {
    var gap: nat := r.End() - (p + b);
    if end == p && after == [Region(p, b, true)] + Free(p + b, gap) {
      CountMappedFirst(p, b, gap, after, post, left, skip);
    } else if end == p + b && after == Free(p + b, gap) {
      CountFree(p + b, gap, post, left, skip);
    } else {
      assert [] + post == post;
    }
  }

  /** The walk over what follows the piece that holds the address. */
  lemma {:induction false} CountAfterPiece(r: Region, p: nat, b: nat, i: nat, post: seq<Region>, left: nat,
                                           skip: set<nat>)
    requires r.base <= p && p + b <= r.End() && b > 0 && p in skip
    requires i < |Pieces(r, p, b)|
    ensures Pieces(r, p, b)[i].End() <= r.End()
    ensures var gap := r.End() - Pieces(r, p, b)[i].End();
            Count(Pieces(r, p, b)[i + 1..] + post, left, skip) == Count(post, left - Min(gap, left), skip)
  {
    AfterPiece(r, p, b, i);
    CountFollowing(r, p, b, Pieces(r, p, b)[i + 1..], Pieces(r, p, b)[i].End(), post, left, skip);
  }

  /** Which piece of a split region holds an address. */
  lemma PieceOf(r: Region, p: nat, b: nat, a: nat) returns (i: nat)
    requires r.base <= p && p + b <= r.End() && b > 0 && r.base <= a < r.End()
    ensures i < |Pieces(r, p, b)|
    ensures Pieces(r, p, b)[i].base <= a < Pieces(r, p, b)[i].End()
  {
    var front := Free(r.base, p - r.base);
    if a < p {
      i := 0;
    } else if a < p + b {
      i := |front|;
      assert Pieces(r, p, b)[i] == Region(p, b, true);
    } else {
      i := |front| + 1;
      assert Pieces(r, p, b)[i] == Free(p + b, r.End() - (p + b))[0];
    }
  }

  /** No other region starts where the new mapping does. */
  lemma SplitBaseIsNew(m: seq<Region>, k: nat, p: nat, i: nat)
    requires Adjacent(m) && k < |m| && i < |m| && i != k && m[k].base <= p < m[k].End()
    ensures m[i].base != p
  {
    if i < k {
      BasesAscend(m, i, k);
    } else {
      BasesAscend(m, k, i);
    }
  }

  /** The count for a first region with d bytes ahead, and the regions after it. */
  function CountFrom(d: nat, regs: seq<Region>, len: nat, skip: set<nat>): nat {
    if d < len then Strides(d) + Count(regs, len - d, skip) else Strides(len)
  }

  lemma PieceCount(r: Region, p: nat, b: nat, i: nat, post: seq<Region>, d: nat, d': nat,
                   len: nat, skip: set<nat>)
    requires r.base <= p && p + b <= r.End() && b > 0 && i < |Pieces(r, p, b)|
    requires d == d' + (r.End() - Pieces(r, p, b)[i].End())
    requires d' <= d
    requires forall x :: x in post ==> x.base != p
    ensures CountFrom(d', Pieces(r, p, b)[i + 1..] + post, len, skip + {p}) <= CountFrom(d, post, len, skip)
  {
    if d' < len {
      CountAfterPiece(r, p, b, i, post, len - d', skip + {p});
      if d < len {
        StridesMonotone(d', d);
        CountSkipMore(post, len - d, skip, p);
      } else {
        StridesMonotone(d', len);
        assert Count(post, 0, skip + {p}) == 0;
      }
    }
  }

  /** How much longer the code takes the first region to be than it is, for an unaligned address. */
  function Lead(addr: nat): nat {
    2 * (addr % PAGE)
  }

  lemma CountAllIsFrom(m: seq<Region>, k: nat, addr: nat, len: nat, skip: set<nat>)
    requires WellFormed(m) && k < |m| && m[k].base <= addr < m[k].End()
    ensures VirtualQuery(m, addr).Some?
    ensures CountAll(m, addr, len, skip)
            == CountFrom(Lead(addr) + (m[k].End() - addr), m[k + 1..], len, skip)
  {
    QueryIn(m, k, addr);
  }

  lemma OtherBases(m: seq<Region>, k: nat, p: nat)
    requires Adjacent(m) && k < |m| && m[k].base <= p < m[k].End()
    ensures forall x :: x in m[..k] || x in m[k + 1..] ==> x.base != p
  {
    forall x | x in m[..k] || x in m[k + 1..] ensures x.base != p {
      var i :| 0 <= i < |m| && i != k && m[i] == x;
      SplitBaseIsNew(m, k, p, i);
    }
  }

  lemma AmongPieces(pre: seq<Region>, ps: seq<Region>, post: seq<Region>, i: nat)
    requires i < |ps|
    ensures var all := pre + ps + post;
      all[|pre| + i] == ps[i] && all[|pre| + i + 1..] == ps[i + 1..] + post
  {
  }

  lemma {:induction false} SplitFacts(m: seq<Region>, m': seq<Region>, k: nat, p: nat, b: nat)
    requires Splits(m, m', k, p, b)
    ensures k < |m| && !m[k].commit && m[k].base <= p && p + b <= m[k].End() && b > 0
    decreases k
  {
    if k > 0 {
      SplitFacts(m[1..], m'[1..], k - 1, p, b);
    }
  }

  /** Where the pieces are in the new map. */
  lemma PieceInMap(m: seq<Region>, m': seq<Region>, k: nat, p: nat, b: nat, i: nat)
    requires Splits(m, m', k, p, b) && k < |m| && m[k].base <= p && p + b <= m[k].End()
    requires i < |Pieces(m[k], p, b)|
    ensures k + i < |m'| && m'[k + i] == Pieces(m[k], p, b)[i]
    ensures m'[k + i + 1..] == Pieces(m[k], p, b)[i + 1..] + m[k + 1..]
  {
    SplitForm(m, m', k, p, b);
    AmongPieces(m[..k], Pieces(m[k], p, b), m[k + 1..], i);
  }

  lemma SplitInside(m: seq<Region>, m': seq<Region>, k: nat, p: nat, b: nat,
                    addr: nat, lead: nat, len: nat, skip: set<nat>)
    returns (k': nat)
    requires Adjacent(m) && Adjacent(m') && Splits(m, m', k, p, b)
    requires k < |m| && m[k].base <= addr < m[k].End()
    ensures k' < |m'| && m'[k'].base <= addr < m'[k'].End()
    ensures CountFrom(lead + (m'[k'].End() - addr), m'[k' + 1..], len, skip + {p})
            <= CountFrom(lead + (m[k].End() - addr), m[k + 1..], len, skip)
  {
    SplitFacts(m, m', k, p, b);
    var r, post := m[k], m[k + 1..];
    var i := PieceOf(r, p, b, addr);
    var ps := Pieces(r, p, b);
    k' := k + i;
    PieceInMap(m, m', k, p, b, i);
    CountAfterPiece(r, p, b, i, post, 0, skip + {p});
    OtherBases(m, k, p);
    PieceCount(r, p, b, i, post, lead + (r.End() - addr), lead + (ps[i].End() - addr), len, skip);
  }

  /** The split region is behind the one that holds the address. */
  lemma SplitBehind(m: seq<Region>, m': seq<Region>, k: nat, p: nat, b: nat, j: nat,
                    d: nat, len: nat, skip: set<nat>)
    requires Adjacent(m) && Splits(m, m', k, p, b) && k < |m| && j < k
    ensures j < |m'| && m'[j] == m[j]
    ensures CountFrom(d, m'[j + 1..], len, skip + {p}) == CountFrom(d, m[j + 1..], len, skip)
  {
    SplitForm(m, m', k, p, b);
    SplitFormBehind(m, m', k, Pieces(m[k], p, b), j);
    OtherBases(m, k, p);
    var pre := m[j + 1..k];
    assert forall x :: x in pre ==> x in m[..k];
    if d < len {
      CountSplit(pre, m[k], p, b, m[k + 1..], len - d, skip);
    }
  }

  lemma SplitFormBehind(m: seq<Region>, m': seq<Region>, k: nat, ps: seq<Region>, j: nat)
    requires j < k < |m| && m' == m[..k] + ps + m[k + 1..]
    ensures j < |m'| && m'[j] == m[j]
    ensures m'[j + 1..] == m[j + 1..k] + ps + m[k + 1..] && m[j + 1..] == m[j + 1..k] + [m[k]] + m[k + 1..]
  {
  }

  /** The split region is ahead of the one that holds the address. */
  lemma SplitAhead(m: seq<Region>, m': seq<Region>, k: nat, p: nat, b: nat, j: nat,
                   d: nat, len: nat, skip: set<nat>)
    returns (j': nat)
    requires Adjacent(m) && Splits(m, m', k, p, b) && k < j < |m|
    ensures j' < |m'| && m'[j'] == m[j]
    ensures CountFrom(d, m'[j' + 1..], len, skip + {p}) == CountFrom(d, m[j + 1..], len, skip)
  {
    SplitForm(m, m', k, p, b);
    j' := SplitFormAhead(m, m', k, Pieces(m[k], p, b), j);
    OtherBases(m, k, p);
    forall x | x in m[j + 1..]
      ensures x.base != p
    {
      assert x in m[k + 1..];
    }
    if d < len {
      CountSkipMore(m[j + 1..], len - d, skip, p);
    }
  }

  lemma SplitFormAhead(m: seq<Region>, m': seq<Region>, k: nat, ps: seq<Region>, j: nat) returns (j': nat)
    requires k < j < |m| && |ps| > 0 && m' == m[..k] + ps + m[k + 1..]
    ensures j' < |m'| && m'[j'] == m[j] && m'[j' + 1..] == m[j + 1..]
  {
    j' := j + |ps| - 1;
  }

  lemma SplitElsewhere(m: seq<Region>, m': seq<Region>, k: nat, p: nat, b: nat, j: nat,
                       addr: nat, lead: nat, len: nat, skip: set<nat>)
    returns (j': nat)
    requires Adjacent(m) && Adjacent(m') && Splits(m, m', k, p, b)
    requires j < |m| && j != k && m[j].base <= addr < m[j].End()
    ensures j' < |m'| && m'[j'] == m[j]
    ensures CountFrom(lead + (m[j].End() - addr), m'[j' + 1..], len, skip + {p})
            == CountFrom(lead + (m[j].End() - addr), m[j + 1..], len, skip)
  {
    SplitFacts(m, m', k, p, b);
    if j < k {
      j' := j;
      SplitBehind(m, m', k, p, b, j, lead + (m[j].End() - addr), len, skip);
    } else {
      j' := SplitAhead(m, m', k, p, b, j, lead + (m[j].End() - addr), len, skip);
    }
  }

  lemma SplitAnywhere(m: seq<Region>, m': seq<Region>, p: nat, b: nat, j: nat,
                      addr: nat, lead: nat, len: nat, skip: set<nat>)
    returns (j': nat)
    requires Adjacent(m) && Adjacent(m') && SplitAt(m, m', p, b)
    requires j < |m| && m[j].base <= addr < m[j].End()
    ensures j' < |m'| && m'[j'].base <= addr < m'[j'].End()
    ensures CountFrom(lead + (m'[j'].End() - addr), m'[j' + 1..], len, skip + {p})
            <= CountFrom(lead + (m[j].End() - addr), m[j + 1..], len, skip)
  {
    var k :| Splits(m, m', k, p, b);
    if j == k {
      assert Splits(m, m', j, p, b);
      j' := SplitInside(m, m', j, p, b, addr, lead, len, skip);
    } else {
      j' := SplitElsewhere(m, m', k, p, b, j, addr, lead, len, skip);
    }
  }

  /** Mapping a bookkeeping region never makes the filling walk write more entries. */
  lemma SplitNeverGrows(m: seq<Region>, m': seq<Region>, p: nat, b: nat,
                        addr: nat, len: nat, skip: set<nat>)
    requires WellFormed(m) && WellFormed(m') && SplitAt(m, m', p, b)
    requires VirtualQuery(m, addr).Some?
    ensures VirtualQuery(m', addr).Some?
    ensures CountAll(m', addr, len, skip + {p}) <= CountAll(m, addr, len, skip)
  {
    var j := Locate(m, addr);
    var j' := SplitAnywhere(m, m', p, b, j, addr, Lead(addr), len, skip);
    CountAllIsFrom(m, j, addr, len, skip);
    CountAllIsFrom(m', j', addr, len, skip + {p});
  }

  /** The region map before the call, after the descriptor is mapped, and after the array is. */
  ghost predicate Remapped(m0: seq<Region>, m1: seq<Region>, m2: seq<Region>, descriptor: nat, array_: nat) {
    && WellFormed(m0) && WellFormed(m1) && WellFormed(m2)
    && (exists b :: SplitAt(m0, m1, descriptor, b))
    && (exists b :: SplitAt(m1, m2, array_, b))
  }

  /** The filling walk, on the changed map, never writes more entries than were allocated. */
  lemma FillFitsAllocation(m0: seq<Region>, m1: seq<Region>, m2: seq<Region>,
                           descriptor: nat, array_: nat, addr: nat, len: nat)
    requires Remapped(m0, m1, m2, descriptor, array_)
    requires VirtualQuery(m0, addr).Some?
    ensures VirtualQuery(m2, addr).Some?
    ensures |FillAll(m2, addr, len, {descriptor, array_})| <= CountAll(m0, addr, len, {})
  {
    var b0 :| SplitAt(m0, m1, descriptor, b0);
    var b1 :| SplitAt(m1, m2, array_, b1);
    SplitNeverGrows(m0, m1, descriptor, b0, addr, len, {});
    SplitNeverGrows(m1, m2, array_, b1, addr, len, {} + {descriptor});
    assert {} + {descriptor} + {array_} == {descriptor, array_};
    FillAllLength(m2, addr, len, {descriptor, array_});
  }

  // ---------------------------------------------------------------------------------------
  // What the entries cover
  // ---------------------------------------------------------------------------------------

  /** The entries start at `at`, follow each other without gap or overlap, and add up to n bytes. */
  predicate Tiles(es: seq<Entry>, at: int, n: nat)
    decreases |es|
  {
    if es == [] then n == 0
    else
      && es[0].address == at && 0 < es[0].bytes <= STRIDE && es[0].bytes <= n
      && (es[0].bytes == STRIDE || |es| == 1)
      && Tiles(es[1..], at + es[0].bytes, n - es[0].bytes)
  }

  lemma {:induction false} BlockTiles(start: int, total: nat)
    ensures Tiles(Block(start, total, total % STRIDE), start, total)
    decreases total
  {
    if total > 0 {
      BlockTilesExactly(start, total, total % STRIDE, start, total);
    }
  }

  /** The inner loop's entries tile n bytes at an address exactly when they start there and add up to n. */
  lemma {:induction false} BlockTilesExactly(start: int, total: nat, rest: nat, at: int, n: nat)
    requires total > 0
    ensures Tiles(Block(start, total, rest), at, n)
      <==> start == at && if total % STRIDE == 0 then n == total
                          else 0 < rest <= STRIDE && n == total - total % STRIDE + rest
    decreases total
  {
    var es := Block(start, total, rest);
    if total >= STRIDE {
      assert total / STRIDE == (total - STRIDE) / STRIDE + 1;
      assert total % STRIDE == (total - STRIDE) % STRIDE;
      assert es[1..] == Block(start + STRIDE, total - STRIDE, rest);
      if total == STRIDE {
        assert es[1..] == [];
      } else if n >= STRIDE {
        BlockTilesExactly(start + STRIDE, total - STRIDE, rest, at + STRIDE, n - STRIDE);
      }
    } else {
      assert es == [Entry(start, rest)] && es[1..] == [];
    }
  }

  function SizesBefore(regs: seq<Region>): nat {
    if regs == [] then 0 else regs[0].size + SizesBefore(regs[1..])
  }

  /** The entries of the k-th later region, of which the range holds the first n bytes. */
  function EntriesOf(addr: nat, r: Region, n: nat): seq<Entry> {
    if r.size < n then Tile(r) else LastTile(addr, r, n)
  }

  /** Every listed later region that the range meets gets a run of entries of its own. */
  lemma {:induction false} RegionHasEntries(addr: nat, regs: seq<Region>, left: nat, skip: set<nat>, k: nat)
    returns (before: seq<Entry>, after: seq<Entry>)
    requires k < |regs| && Listed(regs[k], skip)
    requires SizesBefore(regs[..k]) < left
    ensures Fill(addr, regs, left, skip)
            == before + EntriesOf(addr, regs[k], left - SizesBefore(regs[..k])) + after
    decreases k
  {
    if k == 0 {
      before, after := [], Fill(addr, regs[1..], left - Min(regs[0].size, left), skip);
    } else {
      var own := EntriesOf(addr, regs[k], left - SizesBefore(regs[..k]));
      SizesBeforeStep(regs, k);
      before, after := RegionHasEntries(addr, regs[1..], left - regs[0].size, skip, k - 1);
      before := EntriesInFront(addr, regs, left, skip, before, own, after);
    }
  }

  lemma SizesBeforeStep(regs: seq<Region>, k: nat)
    requires 0 < k < |regs|
    ensures SizesBefore(regs[..k]) == regs[0].size + SizesBefore(regs[1..][..k - 1])
  {
    assert regs[..k][1..] == regs[1..][..k - 1];
  }

  lemma EntriesInFront(addr: nat, regs: seq<Region>, left: nat, skip: set<nat>,
                       before: seq<Entry>, own: seq<Entry>, after: seq<Entry>)
    returns (all: seq<Entry>)
    requires regs != [] && regs[0].size < left
    requires Fill(addr, regs[1..], left - regs[0].size, skip) == before + own + after
    ensures Fill(addr, regs, left, skip) == all + own + after
  {
    all := before;
    if Listed(regs[0], skip) {
      var first := Tile(regs[0]);
      Assoc(first, before + own, after);
      Assoc(first, before, own);
      all := first + before;
    }
  }

  /**
   The entries of a listed later region tile what the range holds of it exactly when the range goes
   on behind it: the region in which the range ends is described from the start of the range.
   */
  lemma RegionTiledExactly(addr: nat, regs: seq<Region>, left: nat, skip: set<nat>, k: nat)
    returns (before: seq<Entry>, own: seq<Entry>, after: seq<Entry>)
    requires k < |regs| && Listed(regs[k], skip) && addr < regs[k].base && regs[k].size > 0
    requires SizesBefore(regs[..k]) < left
    ensures Fill(addr, regs, left, skip) == before + own + after
    ensures Tiles(own, regs[k].base, Min(regs[k].size, left - SizesBefore(regs[..k])))
            <==> SizesBefore(regs[..k]) + regs[k].size < left
  {
    before, after := RegionHasEntries(addr, regs, left, skip, k);
    var r, n := regs[k], left - SizesBefore(regs[..k]);
    own := EntriesOf(addr, r, n);
    if r.size < n {
      BlockTiles(r.base, r.size);
    } else {
      BlockTilesExactly(addr, n, (addr - r.base + r.size) % STRIDE, r.base, n);
    }
  }

  /**
   The first region's entries tile it up to its end exactly when the address is page aligned;
   otherwise they reach behind it.
   */
  lemma {:induction false} FirstRegionTiledExactly(m: seq<Region>, addr: nat, len: nat, skip: set<nat>)
    requires WellFormed(m) && VirtualQuery(m, addr).Some?
    requires FirstSpan(m, addr) < len
    ensures var d, own := FirstSpan(m, addr), m[Locate(m, addr)].End() - addr;
      && FillAll(m, addr, len, skip) == Block(addr, d, d % STRIDE) + Fill(addr, After(m, addr), len - d, skip)
      && (Tiles(Block(addr, d, d % STRIDE), addr, own) <==> addr % PAGE == 0)
      && Tiles(Block(addr, d, d % STRIDE), addr, own + Lead(addr))
  {
    SpanAndLead(m, addr);
    SpanTiles(addr, m[Locate(m, addr)].End() - addr, Lead(addr));
  }

  lemma SpanAndLead(m: seq<Region>, addr: nat)
    requires WellFormed(m) && VirtualQuery(m, addr).Some?
    ensures FirstSpan(m, addr) == m[Locate(m, addr)].End() - addr + Lead(addr)
    ensures Lead(addr) == 0 <==> addr % PAGE == 0
  {
    QueryIn(m, Locate(m, addr), addr);
  }

  lemma {:induction false} SpanTiles(addr: nat, own: nat, lead: nat)
    requires own + lead > 0
    ensures var es := Block(addr, own + lead, (own + lead) % STRIDE);
      Tiles(es, addr, own + lead) && (Tiles(es, addr, own) <==> lead == 0)
  {
    BlockTiles(addr, own + lead);
    BlockTilesExactly(addr, own + lead, (own + lead) % STRIDE, addr, own);
  }

  /**
   A range inside the first region is tiled exactly when it is a whole number of strides, or as far
   from one as the region is: the last entry gets what is left of the region, not of the range.
   */
  lemma RangeInFirstRegionTiledExactly(m: seq<Region>, addr: nat, len: nat, skip: set<nat>)
    requires WellFormed(m) && VirtualQuery(m, addr).Some?
    requires len <= FirstSpan(m, addr)
    ensures Tiles(FillAll(m, addr, len, skip), addr, len)
            <==> len % STRIDE == 0 || len % STRIDE == FirstSpan(m, addr) % STRIDE
  {
    if len > 0 {
      BlockTilesExactly(addr, len, FirstSpan(m, addr) % STRIDE, addr, len);
    }
  }

  /** The smallest case: two committed pages make two entries for the first one. */
  lemma LastRegionIsMisplaced()
    ensures var m := [Region(0, PAGE, true), Region(PAGE, PAGE, true)];
            && VirtualQuery(m, 0).Some?
            && FillAll(m, 0, 2 * PAGE, {}) == [Entry(0, PAGE), Entry(0, 0)]
  {
    var m := [Region(0, PAGE, true), Region(PAGE, PAGE, true)];
    assert Locate(m, 0) == 0;
    assert m[1..] == [Region(PAGE, PAGE, true)] && m[1..][1..] == [];
    assert After(m, 0) == m[1..];
    assert Block(0, PAGE, PAGE % STRIDE) == [Entry(0, PAGE)];
    assert LastTile(0, m[1], PAGE) == [Entry(0, (0 - PAGE + PAGE) % STRIDE)];
    assert Fill(0, m[1..], PAGE, {}) == [Entry(0, 0)];
  }

  // ---------------------------------------------------------------------------------------
  // The two walks as they run
  // ---------------------------------------------------------------------------------------

  /** The address from which VirtualQuery finds the k-th region, or the end of the map. */
  ghost predicate Standing(m: seq<Region>, k: nat, at: nat) {
    && 0 < k <= |m|
    && at == m[k - 1].End()
  }

  lemma QueryStanding(m: seq<Region>, k: nat, at: nat)
    requires WellFormed(m) && Standing(m, k, at)
    ensures VirtualQuery(m, at)
            == if k == |m| then None else Some(Info(m[k].base, m[k].size, m[k].commit))
    ensures k < |m| ==> m[k..] == [m[k]] + m[k + 1..] && at == m[k].base
  {
    if k < |m| {
      assert m[(k - 1) + 1].base == m[k - 1].End();
      QueryAtBase(m, k);
    } else {
      QueryPastEnd(m);
    }
  }

  /** The counting walk; it fails only when the first address is in no region. */
  method CountPass(m: seq<Region>, addr: nat, len: nat) returns (ok: bool, n: nat)
    requires WellFormed(m)
    ensures ok <==> VirtualQuery(m, addr).Some?
    ensures ok ==> n == CountAll(m, addr, len, {})
  {
    var info := VirtualQuery(m, addr);
    if info == None {
      return false, 0;
    }
    ok := true;
    var d := addr - info.value.base + info.value.size;
    if d < len {
      n := d / STRIDE;
      n := n + (if d % STRIDE != 0 then 1 else 0);
      var rest := CountLater(m, info.value.base + info.value.size, len - d, Locate(m, addr) + 1);
      n := n + rest;
    } else {
      n := len / STRIDE;
      n := n + (if len % STRIDE != 0 then 1 else 0);
    }
  }

  /** VirtualQuery at the start of the k-th region. */
  method Ask(m: seq<Region>, at: nat, ghost k: nat) returns (info: Option<Info>)
    requires WellFormed(m) && Standing(m, k, at)
    ensures info == if k == |m| then None else Some(Info(m[k].base, m[k].size, m[k].commit))
    ensures k < |m| ==> at == m[k].base
  {
    QueryStanding(m, k, at);
    info := VirtualQuery(m, at);
  }

  lemma CountStep(m: seq<Region>, k: nat, left: nat, skip: set<nat>)
    requires k < |m| && left != 0
    ensures Count(m[k..], left, skip)
            == (if Listed(m[k], skip) then Strides(Min(m[k].size, left)) else 0)
               + Count(m[k + 1..], left - Min(m[k].size, left), skip)
  {
    assert m[k..][0] == m[k] && m[k..][1..] == m[k + 1..];
  }

  method AddStrides(n: nat, total: nat) returns (n': nat)
    ensures n' == n + Strides(total)
  {
    n' := n + total / STRIDE;
    n' := n' + (if total % STRIDE != 0 then 1 else 0);
  }

  /** One region of the counting walk. */
  method CountRegion(n: nat, info: Info, left: nat) returns (n': nat, left': nat)
    ensures n' == n + (if info.commit then Strides(Min(info.size, left)) else 0)
    ensures left' == left - Min(info.size, left)
  {
    n' := n;
    if info.commit {
      if info.size < left {
        n' := AddStrides(n', info.size);
      } else {
        n' := AddStrides(n', left);
      }
    }
    if info.size < left {
      left' := left - info.size;
    } else {
      left' := 0;
    }
  }

  /** The loop of the counting walk. */
  method CountLater(m: seq<Region>, start: nat, total: nat, ghost k0: nat) returns (n: nat)
    requires WellFormed(m) && Standing(m, k0, start)
    ensures n == Count(m[k0..], total, {})
  {
    n := 0;
    var at: nat, left: nat := start, total;
    ghost var k := k0;
    var info := Ask(m, at, k);
    while left != 0 && info.Some?
      invariant Standing(m, k, at)
      invariant info == if k == |m| then None else Some(Info(m[k].base, m[k].size, m[k].commit))
      invariant n + Count(m[k..], left, {}) == Count(m[k0..], total, {})
      decreases |m| - k
    {
      CountStep(m, k, left, {});
      n, left := CountRegion(n, info.value, left);
      at := at + info.value.size;
      k := k + 1;
      info := Ask(m, at, k);
    }
  }

  /** The inner loop: whole strides from start, then the rest, from index n on. */
  method WriteBlock(out: array<Entry>, n: nat, start: int, total: nat, rest: nat) returns (n': nat)
    requires n + Strides(total) <= out.Length
    modifies out
    ensures n' == n + Strides(total)
    ensures out[..n'] == old(out[..n]) + Block(start, total, rest)
  {
    n' := n;
    var i := 0;
    ghost var whole := seq(total / STRIDE, k => Entry(start + k * STRIDE, STRIDE));
    while i != total / STRIDE
      invariant 0 <= i <= total / STRIDE && n' == n + i
      invariant out[..n'] == old(out[..n]) + whole[..i]
    {
      out[n'] := Entry(start + i * STRIDE, STRIDE);
      n' := n' + 1;
      i := i + 1;
      assert whole[..i] == whole[..i - 1] + [Entry(start + (i - 1) * STRIDE, STRIDE)];
    }
    assert whole[..i] == whole;
    if total % STRIDE != 0 {
      out[n'] := Entry(start + i * STRIDE, rest);
      n' := n' + 1;
    }
  }

  /** The filling walk. Every write is inside the array when the walk's entries fit it. */
  method FillPass(m: seq<Region>, addr: nat, len: nat, descriptor: nat, array_: nat, out: array<Entry>)
    returns (n: nat)
    requires WellFormed(m) && VirtualQuery(m, addr).Some?
    requires |FillAll(m, addr, len, {descriptor, array_})| <= out.Length
    modifies out
    ensures n == |FillAll(m, addr, len, {descriptor, array_})|
    ensures out[..n] == FillAll(m, addr, len, {descriptor, array_})
  {
    var info := VirtualQuery(m, addr).value;
    var d := addr - info.base + info.size;
    var rest := d % STRIDE;
    if d < len {
      ghost var k := Locate(m, addr) + 1;
      ghost var first, later := Block(addr, d, rest), Fill(addr, m[k..], len - d, {descriptor, array_});
      assert FillAll(m, addr, len, {descriptor, array_}) == first + later;
      n := WriteFirst(out, addr, d, rest);
      n := FillLater(m, addr, info.base + info.size, len - d, descriptor, array_, out, n, k);
    } else {
      n := WriteFirst(out, addr, len, rest);
    }
  }

  /** The entries of the first region. */
  method WriteFirst(out: array<Entry>, addr: nat, total: nat, rest: nat) returns (n: nat)
    requires Strides(total) <= out.Length
    modifies out
    ensures n == Strides(total) && out[..n] == Block(addr, total, rest)
  {
    n := WriteBlock(out, 0, addr, total, rest);
    assert out[..n] == [] + Block(addr, total, rest);
  }

  /** The entries of one region in the filling walk. */
  function Piece(addr: nat, r: Region, left: nat, skip: set<nat>): seq<Entry> {
    if !Listed(r, skip) then []
    else if r.size < left then Tile(r)
    else LastTile(addr, r, left)
  }

  lemma FillStep(addr: nat, m: seq<Region>, k: nat, left: nat, skip: set<nat>)
    requires k < |m| && left != 0
    ensures Fill(addr, m[k..], left, skip)
            == Piece(addr, m[k], left, skip) + Fill(addr, m[k + 1..], left - Min(m[k].size, left), skip)
  {
    assert m[k..][0] == m[k] && m[k..][1..] == m[k + 1..];
    var more := Fill(addr, m[k + 1..], left - Min(m[k].size, left), skip);
    assert [] + more == more;
  }

  /** The body of the filling loop for one region. */
  method WriteRegion(addr: nat, r: Region, left: nat, descriptor: nat, array_: nat,
                     out: array<Entry>, n: nat) returns (n': nat)
    requires n + |Piece(addr, r, left, {descriptor, array_})| <= out.Length
    modifies out
    ensures n' == n + |Piece(addr, r, left, {descriptor, array_})|
    ensures out[..n'] == old(out[..n]) + Piece(addr, r, left, {descriptor, array_})
  {
    n' := n;
    if r.commit && r.base != descriptor && r.base != array_ {
      if r.size < left {
        n' := WriteBlock(out, n, r.base, r.size, r.size % STRIDE);
      } else {
        n' := WriteBlock(out, n, addr, left, (addr - r.base + r.size) % STRIDE);
      }
    }
  }

  /** The loop of the filling walk. */
  method FillLater(m: seq<Region>, addr: nat, start: nat, total: nat, descriptor: nat, array_: nat,
                   out: array<Entry>, n0: nat, ghost k0: nat) returns (n: nat)
    requires WellFormed(m) && Standing(m, k0, start)
    requires 0 < n0 && n0 + |Fill(addr, m[k0..], total, {descriptor, array_})| <= out.Length
    modifies out
    ensures n == n0 + |Fill(addr, m[k0..], total, {descriptor, array_})|
    ensures out[..n] == old(out[..n0]) + Fill(addr, m[k0..], total, {descriptor, array_})
  {
    ghost var skip := {descriptor, array_};
    ghost var goal := out[..n0] + Fill(addr, m[k0..], total, skip);
    n := n0;
    var at: nat, left: nat := start, total;
    ghost var k := k0;
    var info := Ask(m, at, k);
    while left != 0 && info.Some?
      invariant Standing(m, k, at)
      invariant info == if k == |m| then None else Some(Info(m[k].base, m[k].size, m[k].commit))
      invariant n0 <= n <= out.Length && out[..n] + Fill(addr, m[k..], left, skip) == goal
      decreases |m| - k
    {
      FillStep(addr, m, k, left, skip);
      var r := Region(info.value.base, info.value.size, info.value.commit);
      Assoc(out[..n], Piece(addr, r, left, skip), Fill(addr, m[k + 1..], left - Min(r.size, left), skip));
      n := WriteRegion(addr, r, left, descriptor, array_, out, n);
      if r.size < left {
        left := left - r.size;
      } else {
        left := 0;
      }
      at := at + r.size;
      k := k + 1;
      info := Ask(m, at, k);
    }
    assert Fill(addr, m[k..], left, skip) == [];
    assert out[..n] + [] == out[..n];
  }

  /**
   madvise (MADV_WILLNEED): `m0`, `m1` and `m2` are the region maps before the call and after the
   two mappings, which may fail. The filled array never overflows; it holds what the walk over the
   final map yields.
   */
  method Madvise(m0: seq<Region>, m1: seq<Region>, m2: seq<Region>, addr: nat, len: nat,
                 descriptor: nat, array_: nat, mapped: bool)
    returns (entries: array?<Entry>, n: nat)
    requires Remapped(m0, m1, m2, descriptor, array_)
    ensures entries != null <==> VirtualQuery(m0, addr).Some? && mapped
    ensures entries != null ==>
              && entries.Length == CountAll(m0, addr, len, {})
              && VirtualQuery(m2, addr).Some?
              && n == |FillAll(m2, addr, len, {descriptor, array_})| <= entries.Length
              && entries[..n] == FillAll(m2, addr, len, {descriptor, array_})
  {
    var ok, count := CountPass(m0, addr, len);
    if !ok || !mapped {
      return null, 0;
    }
    entries := new Entry[count](_ => Entry(0, 0));
    FillFitsAllocation(m0, m1, m2, descriptor, array_, addr, len);
    n := FillPass(m2, addr, len, descriptor, array_, entries);
  }

  lemma {:induction false} SplitKeepsCount(m: seq<Region>, m': seq<Region>, p: nat, b: nat,
                        addr: nat, len: nat, skip: set<nat>)
    requires WellFormed(m) && WellFormed(m') && SplitAt(m, m', p, b)
    requires VirtualQuery(m, addr).Some? && m[Locate(m, addr)].commit
    ensures VirtualQuery(m', addr).Some? && m'[Locate(m', addr)].commit
    ensures CountAll(m', addr, len, skip + {p}) == CountAll(m, addr, len, skip)
  {
    var k :| Splits(m, m', k, p, b);
    SplitFacts(m, m', k, p, b);
    var j := Locate(m, addr);
    var j' := SplitElsewhere(m, m', k, p, b, j, addr, Lead(addr), len, skip);
    CountAllIsFrom(m, j, addr, len, skip);
    CountAllIsFrom(m', j', addr, len, skip + {p});
    LocateUnique(m', addr, j');
  }

  /** When the range begins in committed memory, the allocation is filled exactly. */
  lemma CommittedStartFillsExactly(m0: seq<Region>, m1: seq<Region>, m2: seq<Region>,
                                   descriptor: nat, array_: nat, addr: nat, len: nat)
    requires Remapped(m0, m1, m2, descriptor, array_)
    requires VirtualQuery(m0, addr).Some? && m0[Locate(m0, addr)].commit
    ensures VirtualQuery(m2, addr).Some?
    ensures |FillAll(m2, addr, len, {descriptor, array_})| == CountAll(m0, addr, len, {})
  {
    var b0 :| SplitAt(m0, m1, descriptor, b0);
    var b1 :| SplitAt(m1, m2, array_, b1);
    SplitKeepsCount(m0, m1, descriptor, b0, addr, len, {});
    SplitKeepsCount(m1, m2, array_, b1, addr, len, {} + {descriptor});
    assert {} + {descriptor} + {array_} == {descriptor, array_};
    FillAllLength(m2, addr, len, {descriptor, array_});
  }

  /** On an unchanged map the filling walk fills the allocation exactly. */
  lemma UnchangedMapFillsExactly(m: seq<Region>, addr: nat, len: nat, skip: set<nat>)
    requires VirtualQuery(m, addr).Some?
    requires forall r :: r in m ==> r.base !in skip
    ensures |FillAll(m, addr, len, skip)| == CountAll(m, addr, len, {})
  {
    FillAllLength(m, addr, len, skip);
    var d := FirstSpan(m, addr);
    if d < len {
      CountNoSkip(After(m, addr), len - d, skip);
    }
  }

  lemma {:induction false} CountNoSkip(regs: seq<Region>, left: nat, skip: set<nat>)
    requires forall r :: r in regs ==> r.base !in skip
    ensures Count(regs, left, skip) == Count(regs, left, {})
    decreases |regs|
  {
    if regs != [] && left != 0 {
      CountNoSkip(regs[1..], left - Min(regs[0].size, left), skip);
    }
  }

  // ---------------------------------------------------------------------------------------
  // Stride batching of the prefetch calls
  // ---------------------------------------------------------------------------------------

  /** One call of PrefetchVirtualMemory: count entries from index start. */
  datatype Call = Call(start: nat, count: nat)

  function Indices(start: nat, count: nat): (r: seq<nat>)
    ensures |r| == count && forall k :: 0 <= k < count ==> r[k] == start + k
  {
    seq(count, k requires 0 <= k < count => start + k)
  }

  /** The entries that the calls prefetch, in order. */
  function Prefetched(calls: seq<Call>): (r: seq<nat>) {
    if calls == [] then []
    else Indices(calls[0].start, calls[0].count) + Prefetched(calls[1..])
  }

  lemma {:induction false} PrefetchedAppend(a: seq<Call>, b: seq<Call>)
    ensures Prefetched(a + b) == Prefetched(a) + Prefetched(b)
    decreases |a|
  {
    if a == [] {
      assert a + b == b;
    } else {
      PrefetchedAppend(a[1..], b);
      assert (a + b)[1..] == a[1..] + b;
    }
  }

  lemma PrefetchedOne(c: Call)
    ensures Prefetched([c]) == Indices(c.start, c.count)
  {
    assert [c][1..] == [];
  }

  function Times(n: nat, s: seq<nat>): seq<nat> {
    if n == 0 then [] else Times(n - 1, s) + s
  }

  /** Every batch but the last is a whole stride, and the last is no longer. */
  ghost predicate InBatches(calls: seq<Call>, stride: nat, entries: nat) {
    forall k :: 0 <= k < |calls| ==>
      && 0 < calls[k].count <= stride && calls[k].start + calls[k].count <= entries
      && (k < |calls| - 1 ==> calls[k].count == stride)
  }

  /** One sweep over all entries in batches, the last one shorter. */
  method Sweep(entries: nat, stride: nat) returns (calls: seq<Call>)
    requires stride > 0
    ensures Prefetched(calls) == Indices(0, entries)
    ensures InBatches(calls, stride, entries)
  {
    calls := [];
    var k := 0;
    var batches, rest := entries / stride, entries % stride;
    ghost var done: nat := 0;
    assert batches * stride + rest == entries;
    while k != batches
      invariant 0 <= k <= batches
      invariant done == k * stride && done + (batches - k) * stride + rest == entries
      invariant done <= entries
      invariant Prefetched(calls) == Indices(0, done)
      invariant Whole(calls, stride, entries)
    {
      BatchFits(batches, stride, k);
      calls := Issue(calls, k * stride, stride, stride, entries);
      k := k + 1;
      done := done + stride;
    }
    if rest != 0 {
      calls := Issue(calls, k * stride, rest, stride, entries);
    }
  }

  /** Whole strides only. */
  ghost predicate Whole(calls: seq<Call>, stride: nat, entries: nat) {
    forall k :: 0 <= k < |calls| ==>
      0 < calls[k].count == stride && calls[k].start + calls[k].count <= entries
  }

  /** One call of the system function. */
  method Issue(calls: seq<Call>, start: nat, count: nat, ghost stride: nat, ghost entries: nat)
    returns (more: seq<Call>)
    requires Prefetched(calls) == Indices(0, start) && Whole(calls, stride, entries)
    requires 0 < count <= stride && start + count <= entries
    ensures Prefetched(more) == Indices(0, start + count)
    ensures InBatches(more, stride, entries) && (count == stride ==> Whole(more, stride, entries))
  {
    PrefetchedAppend(calls, [Call(start, count)]);
    PrefetchedOne(Call(start, count));
    more := calls + [Call(start, count)];
  }

  lemma {:induction false} BatchFits(batches: nat, stride: nat, k: nat)
    requires k < batches
    ensures (k + 1) * stride == k * stride + stride
    ensures (batches - k) * stride == (batches - (k + 1)) * stride + stride
    ensures 0 <= (batches - (k + 1)) * stride
  {
  }

  /** The i-th sweep goes over all entries in batches of 1024, then 16, then 1: five times each. */
  ghost predicate Swept(sweeps: seq<seq<Call>>, entries: nat) {
    forall i :: 0 <= i < |sweeps| ==>
      && Prefetched(sweeps[i]) == Indices(0, entries)
      && InBatches(sweeps[i], if i < 5 then 1024 else if i < 10 then 16 else 1, entries)
  }

  /** One more sweep, behind those so far. */
  lemma SweptMore(sweeps: seq<seq<Call>>, sweep: seq<Call>, entries: nat)
    requires Swept(sweeps, entries) && Prefetched(sweep) == Indices(0, entries)
    requires InBatches(sweep, if |sweeps| < 5 then 1024 else if |sweeps| < 10 then 16 else 1, entries)
    ensures Swept(sweeps + [sweep], entries)
    ensures Flatten(sweeps + [sweep]) == Flatten(sweeps) + sweep
  {
    FlattenAppend(sweeps, [sweep]);
    assert [sweep][1..] == [];
    assert Flatten([sweep]) == sweep + [];
  }

  /** Fifteen sweeps touch every entry fifteen times. */
  lemma {:induction false} SweptTouches(sweeps: seq<seq<Call>>, entries: nat)
    requires Swept(sweeps, entries)
    ensures Prefetched(Flatten(sweeps)) == Times(|sweeps|, Indices(0, entries))
    decreases |sweeps|
  {
    if sweeps != [] {
      var n := |sweeps| - 1;
      var front := sweeps[..n];
      assert sweeps == front + [sweeps[n]];
      SweptMore(front, sweeps[n], entries);
      SweptTouches(front, entries);
      PrefetchedAppend(Flatten(front), sweeps[n]);
    }
  }

  /** madvise_PrefetchVirtualMemory: five sweeps at each of three strides touch every entry 15 times. */
  method Prefetch(entries: nat) returns (calls: seq<Call>, ghost sweeps: seq<seq<Call>>)
    ensures |sweeps| == 15 && Swept(sweeps, entries) && calls == Flatten(sweeps)
    ensures Prefetched(calls) == Times(15, Indices(0, entries))
  {
    var multipliers := [1024, 16, 1];
    calls, sweeps := [], [];
    var i := 0;
    while i != |multipliers|
      invariant 0 <= i <= |multipliers| && |sweeps| == 5 * i
      invariant Swept(sweeps, entries) && calls == Flatten(sweeps)
    {
      var j := 0;
      while j != 5
        invariant 0 <= j <= 5 && |sweeps| == 5 * i + j
        invariant Swept(sweeps, entries) && calls == Flatten(sweeps)
      {
        var sweep := Sweep(entries, multipliers[i]);
        SweptMore(sweeps, sweep, entries);
        calls, sweeps := calls + sweep, sweeps + [sweep];
        j := j + 1;
      }
      i := i + 1;
    }
    SweptTouches(sweeps, entries);
  }
}
