/**
 process_vm_readv and process_vm_writev (source/process_vm_readv.c, source/process_vm_writev.c):
 one loop with a cursor in each of two differently cut lists of memory segments.
 */
module ScatterGather {
  import opened CStrings

  type Byte = bv8

  /** struct iovec; an address is an index into the memory of its process. */
  datatype IoVec = IoVec(base: nat, len: nat)

  // ---------------------------------------------------------------------------------------
  // What the two lists mean
  // ---------------------------------------------------------------------------------------

  /** The addresses base, base + 1, ... of a segment. */
  function Range(base: nat, len: nat): (r: seq<nat>)
    ensures |r| == len && forall k :: 0 <= k < len ==> r[k] == base + k
  {
    seq(len, k requires 0 <= k < len => base + k)
  }

  lemma RangeTail(base: nat, len: nat)
    requires len > 0
    ensures Range(base, len)[1..] == Range(base + 1, len - 1)
  {
    var tail, next := Range(base, len)[1..], Range(base + 1, len - 1);
    assert |tail| == |next| && forall k :: 0 <= k < |next| ==> tail[k] == next[k];
  }

  /** The addresses of all segments, in order: the flattened view. */
  function Addresses(vec: seq<IoVec>): (r: seq<nat>) {
    if vec == [] then [] else Range(vec[0].base, vec[0].len) + Addresses(vec[1..])
  }

  function Total(vec: seq<IoVec>): nat {
    if vec == [] then 0 else vec[0].len + Total(vec[1..])
  }

  /** The bytes in the segments before the first empty one. */
  function Reach(vec: seq<IoVec>): (n: nat) {
    if vec == [] || vec[0].len == 0 then 0 else vec[0].len + Reach(vec[1..])
  }

  function Min(a: nat, b: nat): nat {
    if a <= b then a else b
  }

  /** The number of bytes a call moves. */
  function Moved(lvec: seq<IoVec>, rvec: seq<IoVec>): nat {
    Min(Reach(lvec), Reach(rvec))
  }

  /** Every segment lies in a memory of this size. */
  predicate Mapped(vec: seq<IoVec>, size: nat) {
    forall k :: 0 <= k < |vec| ==> vec[k].base + vec[k].len <= size
  }

  /** Memory after the bytes of `from` at the addresses src have been stored at dst, in order. */
  function Copied(mem: seq<Byte>, dst: seq<nat>, from: seq<Byte>, src: seq<nat>): (r: seq<Byte>)
    requires |dst| <= |src|
    requires forall k :: 0 <= k < |dst| ==> dst[k] < |mem| && src[k] < |from|
    ensures |r| == |mem|
    decreases |dst|
  {
    if dst == [] then mem
    else Copied(mem[dst[0] := from[src[0]]], dst[1..], from, src[1..])
  }

  lemma {:induction false} ReachWithin(vec: seq<IoVec>)
    ensures Reach(vec) <= Total(vec)
    ensures (forall v :: v in vec ==> v.len != 0) ==> Reach(vec) == Total(vec)
  {
    if vec != [] {
      ReachWithin(vec[1..]);
    }
  }

  /** One block that a call moves: w bytes at src, stored at dst. */
  datatype Block = Block(dst: nat, src: nat, w: nat)

  /** A list of segments without its first w bytes, which lie in the first one. */
  function Skip(vec: seq<IoVec>, w: nat): seq<IoVec>
    requires vec != [] && w <= vec[0].len
  {
    if w == vec[0].len then vec[1..] else [IoVec(vec[0].base + w, vec[0].len - w)] + vec[1..]
  }

  /** The blocks a call moves, in order: always the most that the two first segments allow. */
  function Blocks(dvec: seq<IoVec>, svec: seq<IoVec>): (r: seq<Block>)
    decreases |dvec| + |svec|
  {
    if dvec == [] || svec == [] || dvec[0].len == 0 || svec[0].len == 0 then []
    else
      var w := Min(dvec[0].len, svec[0].len);
      [Block(dvec[0].base, svec[0].base, w)] + Blocks(Skip(dvec, w), Skip(svec, w))
  }

  lemma {:induction false} BlocksCons(dvec: seq<IoVec>, svec: seq<IoVec>, b: Block, dvec': seq<IoVec>,
                                      svec': seq<IoVec>)
    requires dvec != [] && svec != [] && 0 < b.w == Min(dvec[0].len, svec[0].len)
    requires b.dst == dvec[0].base && b.src == svec[0].base
    requires Skip(dvec, b.w) == dvec' && Skip(svec, b.w) == svec'
    ensures Blocks(dvec, svec) == [b] + Blocks(dvec', svec')
  {
  }

  /** The target after one block; anything outside the memories is left alone. */
  function AfterBlock(t: seq<Byte>, s: seq<Byte>, b: Block): (r: seq<Byte>)
    ensures |r| == |t|
  {
    if b.dst + b.w <= |t| && b.src + b.w <= |s| then Copied(t, Range(b.dst, b.w), s, Range(b.src, b.w)) else t
  }

  /** The target after several blocks, one after the other; a shared memory is read as it has become. */
  function AfterBlocks(t: seq<Byte>, s: seq<Byte>, shared: bool, blocks: seq<Block>): (r: seq<Byte>)
    ensures |r| == |t|
    decreases |blocks|
  {
    if blocks == [] then t
    else
      var t1 := AfterBlock(t, s, blocks[0]);
      AfterBlocks(t1, if shared then t1 else s, shared, blocks[1..])
  }

  /** The two memories after a block: the source is as before, unless it is the target. */
  ghost predicate BlockMoved(shared: bool, b: Block, t0: seq<Byte>, s0: seq<Byte>, t1: seq<Byte>, s1: seq<Byte>) {
    t1 == AfterBlock(t0, s0, b) && s1 == if shared then t1 else s0
  }

  lemma {:induction false} AfterFirstBlock(t: seq<Byte>, s: seq<Byte>, shared: bool, b: Block, rest: seq<Block>)
    ensures var t1 := AfterBlock(t, s, b);
      AfterBlocks(t, s, shared, [b] + rest) == AfterBlocks(t1, if shared then t1 else s, shared, rest)
  {
    assert ([b] + rest)[1..] == rest;
  }

  // ---------------------------------------------------------------------------------------
  // Where a cursor stands
  // ---------------------------------------------------------------------------------------

  /** A cursor is inside a segment, or at the end of the list. */
  predicate Standing(vec: seq<IoVec>, i: nat, off: nat) {
    && i <= |vec|
    && (if i == |vec| then off == 0 else off == 0 || off < vec[i].len)
  }

  /** The cursor at segment i, offset off, has passed n bytes and no empty segment. */
  ghost predicate At(vec: seq<IoVec>, i: nat, off: nat, n: nat)
    decreases i
  {
    if i == 0 then n == off && Standing(vec, 0, off)
    else vec != [] && 0 < vec[0].len <= n && At(vec[1..], i - 1, off, n - vec[0].len)
  }

  lemma {:induction false} AtStands(vec: seq<IoVec>, i: nat, off: nat, n: nat)
    requires At(vec, i, off, n)
    ensures Standing(vec, i, off)
    decreases i
  {
    if i > 0 {
      AtStands(vec[1..], i - 1, off, n - vec[0].len);
    }
  }

  /** The bytes from n on are those at the address `at`. */
  ghost predicate NextPiece(vec: seq<IoVec>, n: nat, at: nat, w: nat) {
    n + w <= |Addresses(vec)| && Addresses(vec)[..n + w] == Addresses(vec)[..n] + Range(at, w)
  }

  lemma PieceOfFirst(vec: seq<IoVec>, off: nat, w: nat)
    requires vec != [] && off + w <= vec[0].len
    ensures NextPiece(vec, off, vec[0].base + off, w)
  {
    var first := Range(vec[0].base, vec[0].len);
    assert Addresses(vec)[..off + w] == first[..off + w];
    assert Addresses(vec)[..off] == first[..off];
    assert first[..off + w] == first[..off] + Range(vec[0].base + off, w);
  }

  lemma PieceOfRest(vec: seq<IoVec>, n: nat, at: nat, w: nat)
    requires vec != [] && NextPiece(vec[1..], n, at, w)
    ensures NextPiece(vec, vec[0].len + n, at, w)
  {
    var first, rest := Range(vec[0].base, vec[0].len), Addresses(vec[1..]);
    FrontTake(first, rest, n);
    FrontTake(first, rest, n + w);
    Assoc(first, rest[..n], Range(at, w));
  }

  lemma FrontTake(a: seq<nat>, b: seq<nat>, n: nat)
    requires n <= |b|
    ensures (a + b)[..|a| + n] == a + b[..n]
  {
  }

  /** The chunk is the next piece of the view, wherever the cursor stands. */
  lemma {:induction false} PieceNext(vec: seq<IoVec>, i: nat, off: nat, n: nat, w: nat)
    requires At(vec, i, off, n) && i < |vec| && off + w <= vec[i].len
    ensures NextPiece(vec, n, vec[i].base + off, w)
    decreases i
  {
    if i == 0 {
      PieceOfFirst(vec, off, w);
    } else {
      PieceNext(vec[1..], i - 1, off, n - vec[0].len, w);
      PieceOfRest(vec, n - vec[0].len, vec[i].base + off, w);
    }
  }

  /** Moving w bytes inside the current segment, or to the next one when it is used up. */
  lemma {:induction false} AtMoves(vec: seq<IoVec>, i: nat, off: nat, n: nat, w: nat)
    requires At(vec, i, off, n) && i < |vec| && 0 < w && off + w <= vec[i].len
    ensures var done := off + w == vec[i].len;
            At(vec, if done then i + 1 else i, if done then 0 else off + w, n + w)
    decreases i
  {
    if i > 0 {
      AtMoves(vec[1..], i - 1, off, n - vec[0].len, w);
    }
  }

  /** A cursor has everything before the first empty segment behind it exactly when it cannot move. */
  lemma {:induction false} AtReach(vec: seq<IoVec>, i: nat, off: nat, n: nat)
    requires At(vec, i, off, n)
    ensures i <= |vec| && n <= Reach(vec)
    ensures n == Reach(vec) <==> i == |vec| || vec[i].len == 0
    decreases i
  {
    if i > 0 {
      AtReach(vec[1..], i - 1, off, n - vec[0].len);
    }
  }

  /** Storing a block is storing its bytes in order. */
  lemma {:induction false} CopiedConcat(mem: seq<Byte>, d1: seq<nat>, d2: seq<nat>, from: seq<Byte>,
                                        s1: seq<nat>, s2: seq<nat>)
    requires |d1| == |s1| && |d2| <= |s2|
    requires forall k :: 0 <= k < |d1| ==> d1[k] < |mem| && s1[k] < |from|
    requires forall k :: 0 <= k < |d2| ==> d2[k] < |mem| && s2[k] < |from|
    ensures Valid(mem, d1 + d2, from, s1 + s2)
    ensures Copied(mem, d1 + d2, from, s1 + s2) == Copied(Copied(mem, d1, from, s1), d2, from, s2)
    decreases |d1|
  {
    if d1 == [] {
      assert d1 + d2 == d2 && s1 + s2 == s2;
    } else {
      var next := mem[d1[0] := from[s1[0]]];
      CopiedConcat(next, d1[1..], d2, from, s1[1..], s2);
      assert (d1 + d2)[1..] == d1[1..] + d2 && (s1 + s2)[1..] == s1[1..] + s2;
    }
  }

  predicate Valid(mem: seq<Byte>, dst: seq<nat>, from: seq<Byte>, src: seq<nat>) {
    && |dst| <= |src|
    && forall k :: 0 <= k < |dst| ==> dst[k] < |mem| && src[k] < |from|
  }

  /** A block after its first byte. */
  lemma FirstByte(mem: seq<Byte>, d: nat, from: seq<Byte>, s: nat, n: nat)
    requires 0 < n && d + n <= |mem| && s + n <= |from|
    ensures var next := mem[d := from[s]];
      next[..d + 1] + from[s + 1..s + n] + next[d + n..] == mem[..d] + from[s..s + n] + mem[d + n..]
  {
    var next, block, tail := mem[d := from[s]], from[s + 1..s + n], mem[d + n..];
    assert next[..d + 1] == mem[..d] + [from[s]];
    assert next[d + n..] == tail;
    assert from[s..s + n] == [from[s]] + block;
    Assoc(mem[..d], [from[s]], block);
  }

  /** One block copied at once is the block copied byte by byte, when source and target differ. */
  lemma {:induction false} BlockCopied(mem: seq<Byte>, d: nat, from: seq<Byte>, s: nat, n: nat)
    requires d + n <= |mem| && s + n <= |from|
    ensures Valid(mem, Range(d, n), from, Range(s, n))
    ensures Copied(mem, Range(d, n), from, Range(s, n)) == mem[..d] + from[s..s + n] + mem[d + n..]
    decreases n
  {
    if n > 0 {
      var next := mem[d := from[s]];
      BlockCopied(next, d + 1, from, s + 1, n - 1);
      RangeTail(d, n);
      RangeTail(s, n);
      FirstByte(mem, d, from, s, n);
    } else {
      assert mem[..d] + from[s..s] + mem[d..] == mem;
    }
  }

  // ---------------------------------------------------------------------------------------
  // The two system calls and the two loops
  // ---------------------------------------------------------------------------------------

  /** ReadProcessMemory and WriteProcessMemory, on memory that both processes have mapped. */
  method Transfer(target: array<Byte>, dst: nat, source: array<Byte>, src: nat, n: nat)
    requires dst + n <= target.Length && src + n <= source.Length
    modifies target
    ensures target[..] == old(target[..dst]) + old(source[src..src + n]) + old(target[dst + n..])
  {
    forall k | 0 <= k < n {
      target[dst + k] := source[src + k];
    }
  }

  /** Reading iov_len at index i; past the last segment the value read is arbitrary. */
  method Peek(vec: seq<IoVec>, i: nat) returns (len: nat)
    ensures i < |vec| ==> len == vec[i].len
  {
    if i < |vec| {
      len := vec[i].len;
    } else {
      len := *;
    }
  }

  /** The length of the next chunk: the shorter of what is left of the two segments. */
  method NextChunk(lvec: seq<IoVec>, iL: nat, offL: nat, rvec: seq<IoVec>, iR: nat, offR: nat)
    returns (write: nat)
    requires Standing(lvec, iL, offL) && Standing(rvec, iR, offR)
    ensures iL < |lvec| && iR < |rvec| ==> write == Min(lvec[iL].len - offL, rvec[iR].len - offR)
  {
    var here := Peek(lvec, iL);
    var there := Peek(rvec, iR);
    write := here - offL;
    if write > there - offR {
      write := there - offR;
    }
  }

  /** Memory that was `was` is now what storing those bytes in order makes it. */
  ghost predicate Stored(was: seq<Byte>, now: seq<Byte>, dst: seq<nat>, from: seq<Byte>, src: seq<nat>) {
    Valid(was, dst, from, src) && now == Copied(was, dst, from, src)
  }

  lemma ChunkStored(was: seq<Byte>, now: seq<Byte>, dst: seq<nat>, from: seq<Byte>, src: seq<nat>,
                    d: nat, s: nat, w: nat)
    requires |dst| == |src| && Stored(was, now, dst, from, src)
    requires d + w <= |was| && s + w <= |from|
    ensures Stored(was, now[..d] + from[s..s + w] + now[d + w..], dst + Range(d, w),
                   from, src + Range(s, w))
  {
    BlockCopied(now, d, from, s, w);
    CopiedConcat(was, dst, Range(d, w), from, src, Range(s, w));
  }

  /** The bytes of a chunk are bytes of the view. */
  lemma PieceIn(vec: seq<IoVec>, n: nat, at: nat, w: nat, a: nat)
    requires NextPiece(vec, n, at, w) && at <= a < at + w
    ensures a in Addresses(vec)
  {
    var k := a - at;
    assert Addresses(vec)[n + k] == Addresses(vec)[..n + w][n + k] == Range(at, w)[k];
  }

  /** The memory that is read still holds what it held at the start of the call. */
  ghost predicate SourceStays(from: seq<Byte>, now: seq<Byte>, svec: seq<IoVec>) {
    |now| == |from| && forall a :: a in Addresses(svec) && a < |from| ==> now[a] == from[a]
  }

  /** Two memories, or one in which no byte that is read is stored to. */
  ghost predicate Apart(shared: bool, dvec: seq<IoVec>, svec: seq<IoVec>) {
    shared ==> forall a :: a in Addresses(dvec) ==> a !in Addresses(svec)
  }

  lemma ChunkReads(from: seq<Byte>, now: seq<Byte>, svec: seq<IoVec>, n: nat, s: nat, w: nat)
    requires SourceStays(from, now, svec) && NextPiece(svec, n, s, w) && s + w <= |from|
    ensures now[s..s + w] == from[s..s + w]
  {
    forall a | s <= a < s + w
      ensures now[a] == from[a]
    {
      PieceIn(svec, n, s, w, a);
    }
  }

  lemma Elsewhere(now: seq<Byte>, d: nat, bytes: seq<Byte>)
    requires d + |bytes| <= |now|
    ensures var next := now[..d] + bytes + now[d + |bytes|..];
      |next| == |now| && forall a :: 0 <= a < |now| && !(d <= a < d + |bytes|) ==> next[a] == now[a]
  {
  }

  /** A chunk stored outside the source view leaves it as it was. */
  lemma ChunkSpares(from: seq<Byte>, now: seq<Byte>, next: seq<Byte>, dvec: seq<IoVec>, n: nat, d: nat, w: nat,
                    svec: seq<IoVec>)
    requires SourceStays(from, now, svec) && NextPiece(dvec, n, d, w) && |next| == |now|
    requires forall a :: 0 <= a < |now| && !(d <= a < d + w) ==> next[a] == now[a]
    requires forall a :: a in Addresses(dvec) ==> a !in Addresses(svec)
    ensures SourceStays(from, next, svec)
  {
    forall a | a in Addresses(svec) && a < |from|
      ensures next[a] == from[a]
    {
      if d <= a < d + w {
        PieceIn(dvec, n, d, w, a);
        assert false;
      }
    }
  }

  /** Everything the call has stored after n bytes. */
  ghost predicate Done(was: seq<Byte>, now: seq<Byte>, dvec: seq<IoVec>, from: seq<Byte>,
                       svec: seq<IoVec>, n: nat)
  {
    && n <= |Addresses(dvec)| && n <= |Addresses(svec)|
    && Stored(was, now, Addresses(dvec)[..n], from, Addresses(svec)[..n])
  }

  lemma ChunkDone(was: seq<Byte>, now: seq<Byte>, dvec: seq<IoVec>, from: seq<Byte>, svec: seq<IoVec>,
                  n: nat, d: nat, s: nat, w: nat)
    requires Done(was, now, dvec, from, svec, n) && |now| == |was|
    requires NextPiece(dvec, n, d, w) && NextPiece(svec, n, s, w) && d + w <= |was| && s + w <= |from|
    ensures Done(was, now[..d] + from[s..s + w] + now[d + w..], dvec, from, svec, n + w)
  {
    ChunkStored(was, now, Addresses(dvec)[..n], from, Addresses(svec)[..n], d, s, w);
  }

  /** What a block does when no byte that is read is stored to. */
  lemma ChunkApart(shared: bool, dvec: seq<IoVec>, d: nat, svec: seq<IoVec>, s: nat, w: nat, n: nat,
                   was: seq<Byte>, from: seq<Byte>, t0: seq<Byte>, s0: seq<Byte>)
    requires Apart(shared, dvec, svec) && |t0| == |was| && SourceStays(from, s0, svec)
    requires NextPiece(dvec, n, d, w) && NextPiece(svec, n, s, w) && d + w <= |was| && s + w <= |from|
    requires Done(was, t0, dvec, from, svec, n) && (shared ==> s0 == t0)
    ensures var t1 := AfterBlock(t0, s0, Block(d, s, w));
      Done(was, t1, dvec, from, svec, n + w) && SourceStays(from, if shared then t1 else s0, svec)
  {
    BlockCopied(t0, d, s0, s, w);
    ChunkDone(was, t0, dvec, from, svec, n, d, s, w);
    ChunkReads(from, s0, svec, n, s, w);
    if shared {
      Elsewhere(t0, d, from[s..s + w]);
      ChunkSpares(from, t0, t0[..d] + from[s..s + w] + t0[d + w..], dvec, n, d, w, svec);
    }
  }

  /** The cursor w bytes on: in the same segment, or at the next one. */
  predicate Past(vec: seq<IoVec>, i: nat, off: nat, w: nat, i': nat, off': nat)
    requires i < |vec|
  {
    if off + w == vec[i].len then i' == i + 1 && off' == 0 else i' == i && off' == off + w
  }

  /** Moves a cursor past w bytes, to the next segment when this one is used up. */
  method Advance(vec: seq<IoVec>, i: nat, off: nat, w: nat, ghost n: nat) returns (i': nat, off': nat)
    requires At(vec, i, off, n) && i < |vec| && 0 < w && off + w <= vec[i].len
    ensures At(vec, i', off', n + w) && Standing(vec, i', off')
    ensures Past(vec, i, off, w, i', off')
  {
    AtMoves(vec, i, off, n, w);
    i', off' := i, off + w;
    if off' == vec[i].len {
      i', off' := i + 1, 0;
    }
    AtStands(vec, i', off', n + w);
  }

  /** When the loop stops, one of the two lists has nothing left before its first empty segment. */
  lemma LoopEnds(lvec: seq<IoVec>, iL: nat, offL: nat, rvec: seq<IoVec>, iR: nat, offR: nat, n: nat)
    requires At(lvec, iL, offL, n) && At(rvec, iR, offR, n)
    requires Standing(lvec, iL, offL) && Standing(rvec, iR, offR)
    requires iL < |lvec| && iR < |rvec| ==> Min(lvec[iL].len - offL, rvec[iR].len - offR) == 0
    ensures n == Moved(lvec, rvec)
  {
    AtReach(lvec, iL, offL, n);
    AtReach(rvec, iR, offR, n);
  }

  /** The chunk chosen by the loop fits both segments, and uses up at least one of them. */
  predicate Chosen(lvec: seq<IoVec>, iL: nat, offL: nat, rvec: seq<IoVec>, iR: nat, offR: nat, w: nat) {
    && Standing(lvec, iL, offL) && Standing(rvec, iR, offR)
    && (iL < |lvec| && iR < |rvec| ==> w == Min(lvec[iL].len - offL, rvec[iR].len - offR))
  }

  /**
   process_vm_readv. `granted` is the outcome of OpenProcess. Whatever the segments, the call
   moves the bytes before the first empty segment of either list, up to the shorter total, and
   stores them in order; nothing else changes, and no read of a segment matters past the end
   of its list. A process that copies to itself moves block after block, and so may read bytes
   that it has stored.
   */
  method ProcessVmReadv(granted: bool, local: array<Byte>, lvec: seq<IoVec>,
                        remote: array<Byte>, rvec: seq<IoVec>)
    returns (result: int, ghost chunks: nat)
    requires Mapped(lvec, local.Length) && Mapped(rvec, remote.Length)
    modifies local
    ensures !granted ==> result == -1 && local[..] == old(local[..])
    ensures granted ==> result == Moved(lvec, rvec)
    ensures granted && Apart(local == remote, lvec, rvec) ==>
              Done(old(local[..]), local[..], lvec, old(remote[..]), rvec, result)
    ensures granted ==> local[..] == AfterBlocks(old(local[..]), old(remote[..]), local == remote, Blocks(lvec, rvec))
    ensures lvec != [] && rvec != [] ==> chunks <= |lvec| + |rvec| - 1
  {
    chunks := 0;
    if !granted {
      return -1, 0;
    }
    var n;
    n, chunks := Run(local, lvec, remote, rvec);
    result := n;
  }

  /**
   process_vm_writev: the same loop, with the remote memory as the target.
   */
  method ProcessVmWritev(granted: bool, local: array<Byte>, lvec: seq<IoVec>,
                         remote: array<Byte>, rvec: seq<IoVec>)
    returns (result: int, ghost chunks: nat)
    requires Mapped(lvec, local.Length) && Mapped(rvec, remote.Length)
    modifies remote
    ensures !granted ==> result == -1 && remote[..] == old(remote[..])
    ensures granted ==> result == Moved(lvec, rvec)
    ensures granted && Apart(local == remote, lvec, rvec) ==>
              Done(old(remote[..]), remote[..], rvec, old(local[..]), lvec, result)
    ensures granted ==> remote[..] == AfterBlocks(old(remote[..]), old(local[..]), local == remote, Blocks(rvec, lvec))
    ensures lvec != [] && rvec != [] ==> chunks <= |lvec| + |rvec| - 1
  {
    chunks := 0;
    if !granted {
      return -1, 0;
    }
    var n;
    n, chunks := Run(remote, rvec, local, lvec);
    result := n;
  }

  lemma DoneStart(was: seq<Byte>, dvec: seq<IoVec>, from: seq<Byte>, svec: seq<IoVec>)
    ensures Done(was, was, dvec, from, svec, 0)
  {
    assert Addresses(dvec)[..0] == [] && Addresses(svec)[..0] == [];
  }

  /** Both cursors move past the chunk, and the next one is chosen. */
  method MoveCursors(dvec: seq<IoVec>, i: nat, iOff: nat, svec: seq<IoVec>, j: nat, jOff: nat, write: nat, n: nat)
    returns (i': nat, iOff': nat, j': nat, jOff': nat, write': nat)
    requires i < |dvec| && j < |svec| && write != 0
    requires At(dvec, i, iOff, n) && At(svec, j, jOff, n)
    requires Chosen(dvec, i, iOff, svec, j, jOff, write)
    ensures At(dvec, i', iOff', n + write) && At(svec, j', jOff', n + write)
    ensures Past(dvec, i, iOff, write, i', iOff') && Past(svec, j, jOff, write, j', jOff')
    ensures Chosen(dvec, i', iOff', svec, j', jOff', write')
    ensures i + j < i' + j'
  {
    i', iOff' := Advance(dvec, i, iOff, write, n);
    j', jOff' := Advance(svec, j, jOff, write, n);
    write' := NextChunk(dvec, i', iOff', svec, j', jOff');
  }

  /** The chunk is the next piece of both views, and mapped in both memories. */
  lemma ChosenPieces(dvec: seq<IoVec>, i: nat, iOff: nat, size: nat, svec: seq<IoVec>, j: nat, jOff: nat, size': nat,
                     n: nat, write: nat)
    requires Mapped(dvec, size) && Mapped(svec, size')
    requires i < |dvec| && j < |svec| && write != 0
    requires At(dvec, i, iOff, n) && At(svec, j, jOff, n) && Chosen(dvec, i, iOff, svec, j, jOff, write)
    ensures NextPiece(dvec, n, dvec[i].base + iOff, write) && NextPiece(svec, n, svec[j].base + jOff, write)
    ensures dvec[i].base + iOff + write <= size && svec[j].base + jOff + write <= size'
  {
    PieceNext(dvec, i, iOff, n, write);
    PieceNext(svec, j, jOff, n, write);
    assert dvec[i].base + dvec[i].len <= size && svec[j].base + svec[j].len <= size';
  }

  /** What a cursor has before it. */
  function Left(vec: seq<IoVec>, i: nat, off: nat): seq<IoVec>
    requires Standing(vec, i, off)
    decreases i
  {
    if i > 0 then Left(vec[1..], i - 1, off)
    else if off == 0 then vec
    else [IoVec(vec[0].base + off, vec[0].len - off)] + vec[1..]
  }

  lemma {:induction false} LeftMoves(vec: seq<IoVec>, i: nat, off: nat, w: nat, i': nat, off': nat)
    requires i < |vec| && Standing(vec, i, off) && 0 < w && off + w <= vec[i].len
    requires Past(vec, i, off, w, i', off') && Standing(vec, i', off')
    ensures var left := Left(vec, i, off);
      && left != [] && left[0] == IoVec(vec[i].base + off, vec[i].len - off)
      && Skip(left, w) == Left(vec, i', off')
    decreases i
  {
    if i > 0 {
      LeftMoves(vec[1..], i - 1, off, w, i' - 1, off');
    } else {
      assert Left(vec, 0, off)[1..] == vec[1..];
    }
  }

  lemma {:induction false} LeftEnds(vec: seq<IoVec>, i: nat, off: nat)
    requires Standing(vec, i, off)
    ensures if i == |vec| then Left(vec, i, off) == []
            else Left(vec, i, off) != [] && Left(vec, i, off)[0].len == vec[i].len - off
    decreases i
  {
    if i > 0 {
      LeftEnds(vec[1..], i - 1, off);
    }
  }

  /** The blocks that the two cursors have before them. */
  function BlocksLeft(dvec: seq<IoVec>, i: nat, iOff: nat, svec: seq<IoVec>, j: nat, jOff: nat): seq<Block>
    requires Standing(dvec, i, iOff) && Standing(svec, j, jOff)
  {
    Blocks(Left(dvec, i, iOff), Left(svec, j, jOff))
  }

  /** The chosen chunk is the next block, and the cursors behind it have the others before them. */
  lemma {:induction false} NextBlock(dvec: seq<IoVec>, i: nat, iOff: nat, svec: seq<IoVec>, j: nat, jOff: nat, w: nat,
                  i': nat, iOff': nat, j': nat, jOff': nat)
    requires i < |dvec| && j < |svec| && 0 < w && Chosen(dvec, i, iOff, svec, j, jOff, w)
    requires Standing(dvec, i', iOff') && Standing(svec, j', jOff')
    requires Past(dvec, i, iOff, w, i', iOff') && Past(svec, j, jOff, w, j', jOff')
    ensures BlocksLeft(dvec, i, iOff, svec, j, jOff) ==
      [Block(dvec[i].base + iOff, svec[j].base + jOff, w)] + BlocksLeft(dvec, i', iOff', svec, j', jOff')
  {
    LeftMoves(dvec, i, iOff, w, i', iOff');
    LeftMoves(svec, j, jOff, w, j', jOff');
    BlocksCons(Left(dvec, i, iOff), Left(svec, j, jOff), Block(dvec[i].base + iOff, svec[j].base + jOff, w),
               Left(dvec, i', iOff'), Left(svec, j', jOff'));
  }

  /** Moving the chunk and then the blocks that are left is moving all of them. */
  lemma {:induction false} SameEnd(t: seq<Byte>, s: seq<Byte>, shared: bool, dvec: seq<IoVec>, i: nat, iOff: nat,
                svec: seq<IoVec>, j: nat, jOff: nat, w: nat, i': nat, iOff': nat, j': nat, jOff': nat,
                t1: seq<Byte>, s1: seq<Byte>)
    requires i < |dvec| && j < |svec| && 0 < w && Chosen(dvec, i, iOff, svec, j, jOff, w)
    requires Standing(dvec, i', iOff') && Standing(svec, j', jOff')
    requires Past(dvec, i, iOff, w, i', iOff') && Past(svec, j, jOff, w, j', jOff')
    requires BlockMoved(shared, Block(dvec[i].base + iOff, svec[j].base + jOff, w), t, s, t1, s1)
    ensures AfterBlocks(t1, s1, shared, BlocksLeft(dvec, i', iOff', svec, j', jOff')) ==
      AfterBlocks(t, s, shared, BlocksLeft(dvec, i, iOff, svec, j, jOff))
  {
    NextBlock(dvec, i, iOff, svec, j, jOff, w, i', iOff', j', jOff');
    AfterFirstBlock(t, s, shared, Block(dvec[i].base + iOff, svec[j].base + jOff, w),
                BlocksLeft(dvec, i', iOff', svec, j', jOff'));
  }

  /** Where the loop stops, no block is left. */
  lemma {:induction false} NoBlockLeft(dvec: seq<IoVec>, i: nat, iOff: nat, svec: seq<IoVec>, j: nat, jOff: nat, w: nat)
    requires Chosen(dvec, i, iOff, svec, j, jOff, w) && (i == |dvec| || j == |svec| || w == 0)
    ensures BlocksLeft(dvec, i, iOff, svec, j, jOff) == []
  {
    LeftEnds(dvec, i, iOff);
    LeftEnds(svec, j, jOff);
  }

  /** The cursors have passed n bytes, and the transfer of n bytes is done. */
  ghost predicate DoneSoFar(shared: bool, dvec: seq<IoVec>, i: nat, iOff: nat, svec: seq<IoVec>, j: nat, jOff: nat,
                            n: nat, was: seq<Byte>, from: seq<Byte>, t: seq<Byte>, s: seq<Byte>)
  {
    && At(dvec, i, iOff, n) && At(svec, j, jOff, n) && Standing(dvec, i, iOff) && Standing(svec, j, jOff)
    && |t| == |was| && (shared ==> s == t)
    && Done(was, t, dvec, from, svec, n) && SourceStays(from, s, svec)
  }

  lemma DoneOnward(shared: bool, dvec: seq<IoVec>, i: nat, iOff: nat, svec: seq<IoVec>, j: nat, jOff: nat, w: nat,
                   n: nat, was: seq<Byte>, from: seq<Byte>, t: seq<Byte>, s: seq<Byte>)
    returns (i': nat, iOff': nat, j': nat, jOff': nat, t1: seq<Byte>, s1: seq<Byte>)
    requires Mapped(dvec, |was|) && Mapped(svec, |from|) && Apart(shared, dvec, svec)
    requires DoneSoFar(shared, dvec, i, iOff, svec, j, jOff, n, was, from, t, s)
    requires i < |dvec| && j < |svec| && 0 < w && Chosen(dvec, i, iOff, svec, j, jOff, w)
    ensures Past(dvec, i, iOff, w, i', iOff') && Past(svec, j, jOff, w, j', jOff')
    ensures BlockMoved(shared, Block(dvec[i].base + iOff, svec[j].base + jOff, w), t, s, t1, s1)
    ensures DoneSoFar(shared, dvec, i', iOff', svec, j', jOff', n + w, was, from, t1, s1)
  {
    t1 := AfterBlock(t, s, Block(dvec[i].base + iOff, svec[j].base + jOff, w));
    s1 := if shared then t1 else s;
    ChosenPieces(dvec, i, iOff, |was|, svec, j, jOff, |from|, n, w);
    ChunkApart(shared, dvec, dvec[i].base + iOff, svec, svec[j].base + jOff, w, n, was, from, t, s);
    i', iOff' := Onward(dvec, i, iOff, w, n);
    j', jOff' := Onward(svec, j, jOff, w, n);
  }

  /** The blocks before the cursors complete the transfer, unless bytes that are read are stored to. */
  lemma {:induction false} RestDone(shared: bool, dvec: seq<IoVec>, i: nat, iOff: nat, svec: seq<IoVec>, j: nat,
                                    jOff: nat, n: nat, was: seq<Byte>, from: seq<Byte>, t: seq<Byte>, s: seq<Byte>)
    requires Mapped(dvec, |was|) && Mapped(svec, |from|) && Apart(shared, dvec, svec)
    requires DoneSoFar(shared, dvec, i, iOff, svec, j, jOff, n, was, from, t, s)
    ensures Done(was, AfterBlocks(t, s, shared, BlocksLeft(dvec, i, iOff, svec, j, jOff)), dvec, from, svec,
                 Moved(dvec, svec))
    decreases |dvec| + |svec| - i - j
  {
    var w := if i < |dvec| && j < |svec| then Min(dvec[i].len - iOff, svec[j].len - jOff) else 0;
    if w == 0 {
      LoopEnds(dvec, i, iOff, svec, j, jOff, n);
      NoBlockLeft(dvec, i, iOff, svec, j, jOff, w);
    } else {
      var i', iOff', j', jOff', t1, s1 := DoneOnward(shared, dvec, i, iOff, svec, j, jOff, w, n, was, from, t, s);
      RestDone(shared, dvec, i', iOff', svec, j', jOff', n + w, was, from, t1, s1);
      SameEnd(t, s, shared, dvec, i, iOff, svec, j, jOff, w, i', iOff', j', jOff', t1, s1);
    }
  }

  lemma Onward(vec: seq<IoVec>, i: nat, off: nat, w: nat, n: nat) returns (i': nat, off': nat)
    requires At(vec, i, off, n) && i < |vec| && 0 < w && off + w <= vec[i].len
    ensures At(vec, i', off', n + w) && Standing(vec, i', off') && Past(vec, i, off, w, i', off')
  {
    AtMoves(vec, i, off, n, w);
    i', off' := if off + w == vec[i].len then i + 1 else i, if off + w == vec[i].len then 0 else off + w;
    AtStands(vec, i', off', n + w);
  }

  /** The system call for one block. */
  method MoveChunk(target: array<Byte>, dvec: seq<IoVec>, i: nat, iOff: nat, source: array<Byte>,
                   svec: seq<IoVec>, j: nat, jOff: nat, w: nat, ghost n: nat)
    requires Mapped(dvec, target.Length) && Mapped(svec, source.Length)
    requires i < |dvec| && j < |svec| && w != 0
    requires At(dvec, i, iOff, n) && At(svec, j, jOff, n) && Chosen(dvec, i, iOff, svec, j, jOff, w)
    modifies target
    ensures BlockMoved(target == source, Block(dvec[i].base + iOff, svec[j].base + jOff, w),
                  old(target[..]), old(source[..]), target[..], source[..])
  {
    ChosenPieces(dvec, i, iOff, target.Length, svec, j, jOff, source.Length, n, w);
    ghost var t0, s0 := target[..], source[..];
    var d, s := dvec[i].base + iOff, svec[j].base + jOff;
    Transfer(target, d, source, s, w);
    BlockCopied(t0, d, s0, s, w);
    assert s0[s..s + w] == old(source[s..s + w]) && t0[..d] == old(target[..d]) && t0[d + w..] == old(target[d + w..]);
  }

  /** One turn of the loop. */
  method Iterate(target: array<Byte>, dvec: seq<IoVec>, i: nat, iOff: nat, source: array<Byte>,
                 svec: seq<IoVec>, j: nat, jOff: nat, write: nat, n: nat)
    returns (n': nat, i': nat, iOff': nat, j': nat, jOff': nat, write': nat)
    requires Mapped(dvec, target.Length) && Mapped(svec, source.Length)
    requires i < |dvec| && j < |svec| && write != 0
    requires At(dvec, i, iOff, n) && At(svec, j, jOff, n)
    requires Chosen(dvec, i, iOff, svec, j, jOff, write)
    modifies target
    ensures n' == n + write && At(dvec, i', iOff', n') && At(svec, j', jOff', n')
    ensures Chosen(dvec, i', iOff', svec, j', jOff', write')
    ensures AfterBlocks(target[..], source[..], target == source, BlocksLeft(dvec, i', iOff', svec, j', jOff')) ==
      AfterBlocks(old(target[..]), old(source[..]), target == source, BlocksLeft(dvec, i, iOff, svec, j, jOff))
    ensures i + j < i' + j' && i' <= |dvec| && j' <= |svec|
  {
    ghost var t0, s0, shared := target[..], source[..], target == source;
    MoveChunk(target, dvec, i, iOff, source, svec, j, jOff, write, n);
    ghost var t1, s1 := target[..], source[..];
    n' := n + write;
    i', iOff', j', jOff', write' := MoveCursors(dvec, i, iOff, svec, j, jOff, write, n);
    SameEnd(t0, s0, shared, dvec, i, iOff, svec, j, jOff, write, i', iOff', j', jOff', t1, s1);
    assert target[..] == t1 && source[..] == s1;
  }

  /** The loop of both calls, from the list that is stored into to the list that is read. */
  method Run(target: array<Byte>, dvec: seq<IoVec>, source: array<Byte>, svec: seq<IoVec>)
    returns (n: nat, ghost chunks: nat)
    requires Mapped(dvec, target.Length) && Mapped(svec, source.Length)
    modifies target
    ensures n == Moved(dvec, svec)
    ensures target[..] == AfterBlocks(old(target[..]), old(source[..]), target == source, Blocks(dvec, svec))
    ensures Apart(target == source, dvec, svec) ==>
              Done(old(target[..]), target[..], dvec, old(source[..]), svec, n)
    ensures dvec != [] && svec != [] ==> chunks <= |dvec| + |svec| - 1
  {
    ghost var was, from, shared := target[..], source[..], target == source;
    var i, j, iOff, jOff := 0, 0, 0, 0;
    n, chunks := 0, 0;
    var write := NextChunk(dvec, 0, 0, svec, 0, 0);
    assert Left(dvec, 0, 0) == dvec && Left(svec, 0, 0) == svec;
    while i != |dvec| && j != |svec| && write != 0
      invariant At(dvec, i, iOff, n) && At(svec, j, jOff, n)
      invariant Chosen(dvec, i, iOff, svec, j, jOff, write)
      invariant AfterBlocks(target[..], source[..], shared, BlocksLeft(dvec, i, iOff, svec, j, jOff)) ==
        AfterBlocks(was, from, shared, Blocks(dvec, svec))
      invariant chunks <= i + j && (chunks > 0 ==> chunks <= |dvec| + |svec| - 1)
      decreases |dvec| + |svec| - i - j
    {
      n, i, iOff, j, jOff, write := Iterate(target, dvec, i, iOff, source, svec, j, jOff, write, n);
      chunks := chunks + 1;
    }
    LoopEnds(dvec, i, iOff, svec, j, jOff, n);
    NoBlockLeft(dvec, i, iOff, svec, j, jOff, write);
    if Apart(shared, dvec, svec) {
      DoneStart(was, dvec, from, svec);
      RestDone(shared, dvec, 0, 0, svec, 0, 0, 0, was, from, was, from);
    }
  }

  // ---------------------------------------------------------------------------------------
  // What a call means to its caller
  // ---------------------------------------------------------------------------------------

  /** The bytes of all segments, in order. */
  function View(mem: seq<Byte>, vec: seq<IoVec>): (r: seq<Byte>)
    requires Mapped(vec, |mem|)
  {
    if vec == [] then []
    else
      MappedTail(vec, |mem|);
      mem[vec[0].base..vec[0].base + vec[0].len] + View(mem, vec[1..])
  }

  lemma MappedTail(vec: seq<IoVec>, size: nat)
    requires vec != [] && Mapped(vec, size)
    ensures vec[0].base + vec[0].len <= size
    ensures Mapped(vec[1..], size)
  {
    assert forall k :: 0 <= k < |vec[1..]| ==> vec[1..][k] == vec[k + 1];
  }

  lemma {:induction false} ViewByAddress(mem: seq<Byte>, vec: seq<IoVec>)
    requires Mapped(vec, |mem|)
    ensures |View(mem, vec)| == |Addresses(vec)|
    ensures forall k :: 0 <= k < |Addresses(vec)| ==>
              Addresses(vec)[k] < |mem| && View(mem, vec)[k] == mem[Addresses(vec)[k]]
  {
    if vec != [] {
      MappedTail(vec, |mem|);
      ViewByAddress(mem, vec[1..]);
    }
  }

  /** No byte belongs to two segments. */
  predicate Disjoint(vec: seq<IoVec>) {
    forall i, j :: 0 <= i < j < |vec| ==>
      || vec[i].len == 0 || vec[j].len == 0
      || vec[i].base + vec[i].len <= vec[j].base || vec[j].base + vec[j].len <= vec[i].base
  }

  lemma {:induction false} AddressInSegment(vec: seq<IoVec>, a: nat)
    requires a in Addresses(vec)
    ensures exists k :: 0 <= k < |vec| && vec[k].base <= a < vec[k].base + vec[k].len
  {
    if a in Range(vec[0].base, vec[0].len) {
      assert vec[0].base <= a < vec[0].base + vec[0].len;
    } else {
      AddressInSegment(vec[1..], a);
      var k :| 0 <= k < |vec[1..]| && vec[1..][k].base <= a < vec[1..][k].base + vec[1..][k].len;
      assert vec[k + 1] == vec[1..][k];
    }
  }

  ghost predicate Distinct(s: seq<nat>) {
    forall i, j :: 0 <= i < j < |s| ==> s[i] != s[j]
  }

  lemma {:induction false} DisjointAddresses(vec: seq<IoVec>)
    requires Disjoint(vec)
    ensures Distinct(Addresses(vec))
  {
    if vec != [] {
      var here, rest := Range(vec[0].base, vec[0].len), Addresses(vec[1..]);
      assert forall k :: 0 <= k < |vec[1..]| ==> vec[1..][k] == vec[k + 1];
      DisjointAddresses(vec[1..]);
      forall i, j | 0 <= i < |here| && 0 <= j < |rest| ensures here[i] != rest[j] {
        AddressInSegment(vec[1..], rest[j]);
      }
    }
  }

  /** Distinct targets: every byte lands where it should, and nothing else changes. */
  lemma {:induction false} CopiedPointwise(mem: seq<Byte>, dst: seq<nat>, from: seq<Byte>, src: seq<nat>)
    requires Valid(mem, dst, from, src) && Distinct(dst)
    ensures forall k :: 0 <= k < |dst| ==> Copied(mem, dst, from, src)[dst[k]] == from[src[k]]
    ensures forall a :: 0 <= a < |mem| && a !in dst ==> Copied(mem, dst, from, src)[a] == mem[a]
    decreases |dst|
  {
    if dst != [] {
      var next := mem[dst[0] := from[src[0]]];
      assert dst[0] !in dst[1..];
      CopiedPointwise(next, dst[1..], from, src[1..]);
      var r := Copied(mem, dst, from, src);
      assert r == Copied(next, dst[1..], from, src[1..]);
      forall k | 0 <= k < |dst| ensures r[dst[k]] == from[src[k]] {
        if k > 0 {
          assert dst[1..][k - 1] == dst[k] && src[1..][k - 1] == src[k];
        }
      }
      forall a | 0 <= a < |mem| && a !in dst ensures r[a] == mem[a] {
        assert a !in dst[1..] && a != dst[0];
      }
    }
  }

  /**
   With disjoint target segments, the first n bytes of the flattened target view become those of
   the flattened source view; the rest of the view and all memory outside it are unchanged.
   */
  lemma TransferMeaning(was: seq<Byte>, now: seq<Byte>, dvec: seq<IoVec>, from: seq<Byte>,
                        svec: seq<IoVec>, n: nat)
    requires |now| == |was| && Mapped(dvec, |was|) && Mapped(svec, |from|) && Disjoint(dvec)
    requires Done(was, now, dvec, from, svec, n)
    ensures n <= |View(now, dvec)| == |View(was, dvec)| && n <= |View(from, svec)|
    ensures View(now, dvec)[..n] == View(from, svec)[..n]
    ensures View(now, dvec)[n..] == View(was, dvec)[n..]
    ensures forall a :: 0 <= a < |was| && a !in Addresses(dvec)[..n] ==> now[a] == was[a]
  {
    var dst, src := Addresses(dvec), Addresses(svec);
    ViewByAddress(was, dvec);
    ViewByAddress(now, dvec);
    ViewByAddress(from, svec);
    DisjointAddresses(dvec);
    CopiedPointwise(was, dst[..n], from, src[..n]);
    forall k | 0 <= k < n ensures View(now, dvec)[k] == View(from, svec)[k] {
      assert dst[..n][k] == dst[k] && src[..n][k] == src[k];
    }
    forall k | n <= k < |dst| ensures View(now, dvec)[k] == View(was, dvec)[k] {
      assert dst[k] !in dst[..n];
    }
  }

  /** With nonempty segments throughout, the call moves the shorter of the two totals. */
  lemma NonemptySegmentsMoveAll(lvec: seq<IoVec>, rvec: seq<IoVec>)
    requires forall v :: v in lvec || v in rvec ==> v.len != 0
    ensures Moved(lvec, rvec) == Min(Total(lvec), Total(rvec))
  {
    ReachWithin(lvec);
    ReachWithin(rvec);
  }

  /** No empty segment stands before the first m bytes. */
  predicate NoGapBefore(vec: seq<IoVec>, m: nat) {
    forall k :: 0 <= k < |vec| && vec[k].len == 0 ==> m <= Total(vec[..k])
  }

  lemma {:induction false} ReachIsFirstGap(vec: seq<IoVec>, m: nat)
    requires m <= Total(vec)
    ensures m <= Reach(vec) <==> NoGapBefore(vec, m)
  {
    if vec != [] {
      var rest := vec[1..];
      assert vec[..0] == [];
      forall k | 0 <= k < |rest| ensures Total(vec[..k + 1]) == vec[0].len + Total(rest[..k]) {
        assert vec[..k + 1][1..] == rest[..k];
      }
      assert forall k :: 0 <= k < |rest| ==> rest[k] == vec[k + 1];
      if vec[0].len == 0 {
        assert NoGapBefore(vec, m) ==> m <= Total(vec[..0]);
      } else {
        var left := if m < vec[0].len then 0 else m - vec[0].len;
        ReachIsFirstGap(rest, left);
        if NoGapBefore(vec, m) {
          forall k | 0 <= k < |rest| && rest[k].len == 0 ensures left <= Total(rest[..k]) {
            assert m <= Total(vec[..k + 1]);
          }
        }
        if NoGapBefore(rest, left) {
          forall k | 0 <= k < |vec| && vec[k].len == 0 ensures m <= Total(vec[..k]) {
            assert rest[k - 1].len == 0;
            assert left <= Total(rest[..k - 1]);
            assert Total(vec[..(k - 1) + 1]) == vec[0].len + Total(rest[..k - 1]);
          }
        }
      }
    }
  }

  /**
   The call moves min(total local, total remote) bytes exactly when no empty segment of either
   list stands before that many bytes: the loop stops at the first empty segment it meets.
   */
  lemma MovesAllExactly(lvec: seq<IoVec>, rvec: seq<IoVec>)
    ensures var m := Min(Total(lvec), Total(rvec));
            Moved(lvec, rvec) == m <==> NoGapBefore(lvec, m) && NoGapBefore(rvec, m)
  {
    var m := Min(Total(lvec), Total(rvec));
    ReachWithin(lvec);
    ReachWithin(rvec);
    ReachIsFirstGap(lvec, m);
    ReachIsFirstGap(rvec, m);
  }

  /** An empty first segment: nothing is moved although eight bytes could be. */
  lemma EmptySegmentStops()
    ensures Moved([IoVec(0, 0), IoVec(0, 8)], [IoVec(0, 8)]) == 0
    ensures Min(Total([IoVec(0, 0), IoVec(0, 8)]), Total([IoVec(0, 8)])) == 8
  {
    assert [IoVec(0, 0), IoVec(0, 8)][1..] == [IoVec(0, 8)];
    assert Total([IoVec(0, 8)]) == 8 + Total([]);
  }

  /** A process that copies two bytes one place up, byte by byte: the second block reads what the first stored. */
  lemma OverlapReadsStored(a: Byte, b: Byte, c: Byte, dvec: seq<IoVec>, svec: seq<IoVec>)
    requires dvec == [IoVec(1, 1), IoVec(2, 1)] && svec == [IoVec(0, 1), IoVec(1, 1)]
    ensures AfterBlocks([a, b, c], [a, b, c], true, Blocks(dvec, svec)) == [a, a, a]
    ensures AfterBlocks([a, b, c], [a, b, c], false, Blocks(dvec, svec)) == [a, a, b]
  {
    assert dvec[1..] == [IoVec(2, 1)] && svec[1..] == [IoVec(1, 1)];
    var blocks := [Block(1, 0, 1), Block(2, 1, 1)];
    assert Blocks(dvec, svec) == blocks by {
      BlocksCons(dvec, svec, blocks[0], dvec[1..], svec[1..]);
      BlocksCons(dvec[1..], svec[1..], blocks[1], [], []);
    }
    var t0, t1, first, second := [a, b, c], [a, a, c], blocks[0], blocks[1];
    assert blocks == [first] + [second] && [second] == [second] + [];
    BlockCopied(t0, 1, t0, 0, 1);
    assert AfterBlock(t0, t0, first) == t1;
    BlockCopied(t1, 2, t1, 1, 1);
    assert AfterBlock(t1, t1, second) == [a, a, a];
    BlockCopied(t1, 2, t0, 1, 1);
    assert AfterBlock(t1, t0, second) == [a, a, b];
    forall shared: bool
      ensures AfterBlocks(t0, t0, shared, blocks) == AfterBlock(t1, if shared then t1 else t0, second)
    {
      AfterFirstBlock(t0, t0, shared, first, [second]);
      AfterFirstBlock(t1, if shared then t1 else t0, shared, second, []);
    }
  }
}
