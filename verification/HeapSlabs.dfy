// The heap end that only moves by requests, and the slab allocator of the profiler on top of it.
module HeapSlabs {
  import opened Words

  const SLAB: nat := 1020

  /** A stretch of addresses. */
  datatype Block = Block(lo: nat, len: nat) {
    function End(): nat { lo + len }
  }

  ghost predicate Disjoint(a: Block, b: Block) {
    a.End() <= b.lo || b.End() <= a.lo
  }

  ghost predicate Within(a: Block, b: Block) {
    b.lo <= a.lo && a.End() <= b.End()
  }

  // ----- sbrk

  function Align(a: nat): nat { (a + 3) / 4 * 4 }

  /** The new heap end, and the address granted; the comparison is between 32-bit addresses. */
  function Granted(heapEnd: u32, limit: u32, incr: i32): (u32, Option<u32>) {
    var aligned := Align(heapEnd) % WORD;
    var end := (aligned + incr) % WORD;
    if end > limit then (aligned, None) else (end, Some(aligned))
  }

  /** A grant of a non-negative size is aligned, starts at or after the old end and stays below the limit. */
  lemma GrantIsSound(heapEnd: u32, limit: u32, incr: i32)
    requires limit % 4 == 0 && heapEnd <= limit && limit + incr < WORD && incr >= 0
    ensures var (end, grant) := Granted(heapEnd, limit, incr);
      && heapEnd <= end <= limit
      && (grant.Some? <==> Align(heapEnd) + incr <= limit)
      && (grant.Some? ==> grant.value % 4 == 0 && heapEnd <= grant.value && end == grant.value + incr)
  {
  }

  /** Giving back what was just granted restores the heap end exactly for multiples of four. */
  lemma GiveBackIff(heapEnd: u32, limit: u32, n: i32)
    requires limit % 4 == 0 && heapEnd <= limit && limit + n + 4 < WORD && n >= 0
    requires Granted(heapEnd, limit, n).1.Some?
    ensures var (end, grant) := Granted(heapEnd, limit, n);
      Granted(end, limit, -n).0 == grant.value <==> n % 4 == 0
  {
    GrantIsSound(heapEnd, limit, n);
    var (end, grant) := Granted(heapEnd, limit, n);
    AlignSum(grant.value, n, limit);
    hide Align;
    assert Align(end) % WORD == Align(end);
  }

  lemma AlignSum(g: nat, n: nat, limit: nat)
    requires g % 4 == 0 && limit % 4 == 0 && g + n <= limit
    ensures Align(g + n) == g + Align(n) <= limit
    ensures n <= Align(n) <= n + 3 && (Align(n) == n <==> n % 4 == 0)
  {
  }

  // ----- the allocator over whole runs

  /**
   * The heap end with everything granted so far, and the current slab with the blocks handed out;
   * `slabs` are the grants made for the allocator, `others` those for anybody else.
   */
  datatype Heap = Heap(
    end: u32, slabPtr: u32, slabSize: int,
    slabs: seq<Block>, others: seq<Block>, blocks: seq<Block>)

  datatype Request = Allocate(size: nat) | Grow(incr: i32)

  /** What callers may ask of the allocator and of `sbrk`. */
  ghost predicate Sensible(r: Request) {
    match r
    case Allocate(size) => size % 4 == 0 && 0 < size <= SLAB
    case Grow(incr) => incr >= 0
  }

  /** The heap after `mcount_allocate`; none if no new slab could be had. */
  ghost function Allocated(h: Heap, limit: u32, size: nat): Option<Heap> {
    var ready :=
      if size <= h.slabSize then Some(h)
      else
        var (end, grant) := Granted(h.end, limit, SLAB);
        if grant.None? then None
        else Some(h.(end := end, slabPtr := grant.value, slabSize := SLAB,
                     slabs := h.slabs + [Block(grant.value, SLAB)]));
    if ready.None? then None
    else
      var f := ready.value;
      Some(f.(slabPtr := (f.slabPtr + size) % WORD, slabSize := f.slabSize - size,
              blocks := f.blocks + [Block(f.slabPtr, size)]))
  }

  ghost function Grown(h: Heap, limit: u32, incr: i32): Heap {
    var (end, grant) := Granted(h.end, limit, incr);
    if grant.None? || incr < 0 then h.(end := end)
    else h.(end := end, others := h.others + [Block(grant.value, incr)])
  }

  ghost function Next(h: Heap, limit: u32, r: Request): Option<Heap> {
    match r
    case Allocate(size) => Allocated(h, limit, size)
    case Grow(incr) => Some(Grown(h, limit, incr))
  }

  ghost predicate AllDisjoint(bs: seq<Block>) {
    forall i, j :: 0 <= i < j < |bs| ==> Disjoint(bs[i], bs[j])
  }

  ghost predicate AllBelow(bs: seq<Block>, start: nat, end: nat) {
    forall i :: 0 <= i < |bs| ==> bs[i].lo % 4 == 0 && start <= bs[i].lo && bs[i].End() <= end
  }

  ghost predicate InSomeSlab(b: Block, slabs: seq<Block>) {
    exists i :: 0 <= i < |slabs| && Within(b, slabs[i])
  }

  ghost predicate AllInSlabs(bs: seq<Block>, slabs: seq<Block>) {
    forall k :: 0 <= k < |bs| ==> InSomeSlab(bs[k], slabs)
  }

  ghost predicate Inv(h: Heap, start: u32, limit: u32) {
    && start <= h.end <= limit && limit % 4 == 0 && limit + 0x8000_0000 < WORD
    && AllDisjoint(h.slabs + h.others) && AllBelow(h.slabs + h.others, start, h.end)
    && AllDisjoint(h.blocks) && AllBelow(h.blocks, start, h.slabPtr)
    && AllInSlabs(h.blocks, h.slabs)
    && 0 <= h.slabSize <= SLAB
    && (h.slabs == [] ==> h.slabSize == 0 && h.blocks == [])
    && (h.slabs != [] ==>
          var last := h.slabs[|h.slabs| - 1];
          && last.lo % 4 == 0 && last.len == SLAB && h.slabSize % 4 == 0
          && h.slabPtr + h.slabSize == last.End() && last.lo <= h.slabPtr && last.End() <= h.end)
  }

  lemma DisjointFrom(bs: seq<Block>, b: Block, end: nat)
    requires AllDisjoint(bs) && b.lo >= end
    requires forall i :: 0 <= i < |bs| ==> bs[i].End() <= end
    ensures AllDisjoint(bs + [b])
  {
  }

  /** A grant inserted after the slabs rather than at the very end. */
  lemma DisjointSlab(slabs: seq<Block>, others: seq<Block>, b: Block, end: nat)
    requires AllDisjoint(slabs + others) && b.lo >= end
    requires forall i :: 0 <= i < |slabs + others| ==> (slabs + others)[i].End() <= end
    ensures AllDisjoint(slabs + [b] + others)
  {
    var was, all := slabs + others, slabs + [b] + others;
    forall i, j | 0 <= i < j < |all| ensures Disjoint(all[i], all[j]) {
      assert i < |slabs| ==> all[i] == was[i];
      assert i > |slabs| ==> all[i] == was[i - 1];
      assert j < |slabs| ==> all[j] == was[j];
      assert j > |slabs| ==> all[j] == was[j - 1];
    }
  }

  /** What is left of the slab that blocks are cut from. */
  ghost function Rest(h: Heap): int {
    if h.slabs == [] then 0 else h.slabs[|h.slabs| - 1].End() - h.slabPtr
  }

  /**
   * A request is served from the rest of the current slab whenever it fits there, right behind the
   * last block, and from the start of a new slab otherwise; it fails only if that does not fit.
   */
  lemma AllocationServes(h: Heap, start: u32, limit: u32, size: nat)
    requires Inv(h, start, limit) && 0 < size <= SLAB
    ensures match Next(h, limit, Allocate(size))
      case None => size > Rest(h) && Align(h.end) + SLAB > limit
      case Some(e) =>
        && e.others == h.others
        && if size <= Rest(h) then
             e.slabs == h.slabs && e.end == h.end && e.blocks == h.blocks + [Block(h.slabPtr, size)]
           else
             && e.slabs == h.slabs + [Block(Align(h.end), SLAB)] && e.end == Align(h.end) + SLAB <= limit
             && e.blocks == h.blocks + [Block(Align(h.end), size)]
  {
    GrantIsSound(h.end, limit, SLAB);
    AlignSmall(h.end);
    hide AllDisjoint, AllBelow, AllInSlabs, Align;
  }

  lemma AlignSmall(a: u32)
    ensures a <= Align(a) <= a + 3
  {
  }

  lemma SlabsGrow(bs: seq<Block>, slabs: seq<Block>, b: Block)
    requires AllInSlabs(bs, slabs)
    ensures AllInSlabs(bs, slabs + [b])
  {
    forall k | 0 <= k < |bs| ensures InSomeSlab(bs[k], slabs + [b]) {
      var i :| 0 <= i < |slabs| && Within(bs[k], slabs[i]);
      assert (slabs + [b])[i] == slabs[i];
    }
  }

  /** A new slab keeps everything in order. */
  lemma FreshSlabOk(h: Heap, start: u32, limit: u32)
    requires Inv(h, start, limit) && Granted(h.end, limit, SLAB).1.Some?
    ensures var (end, grant) := Granted(h.end, limit, SLAB);
      Inv(h.(end := end, slabPtr := grant.value, slabSize := SLAB, slabs := h.slabs + [Block(grant.value, SLAB)]),
          start, limit)
  {
    GrantIsSound(h.end, limit, SLAB);
    var (end, grant) := Granted(h.end, limit, SLAB);
    hide Granted, InSomeSlab;
    var b := Block(grant.value, SLAB);
    BelowEnds(h.slabs + h.others, start, h.end);
    DisjointSlab(h.slabs, h.others, b, h.end);
    SlabsGrow(h.blocks, h.slabs, b);
    hide AllDisjoint, AllInSlabs;
    BelowSlab(h.slabs, h.others, b, start, h.end, end);
  }

  lemma BelowEnds(bs: seq<Block>, start: nat, end: nat)
    requires AllBelow(bs, start, end)
    ensures forall i :: 0 <= i < |bs| ==> bs[i].End() <= end
  {
  }

  lemma BelowSlab(slabs: seq<Block>, others: seq<Block>, b: Block, start: nat, end: nat, end': nat)
    requires AllBelow(slabs + others, start, end) && end <= end'
    requires b.lo % 4 == 0 && start <= b.lo && b.End() <= end'
    ensures AllBelow(slabs + [b] + others, start, end')
  {
    var was, all := slabs + others, slabs + [b] + others;
    forall i | 0 <= i < |all| ensures all[i].lo % 4 == 0 && start <= all[i].lo && all[i].End() <= end' {
      assert i < |slabs| ==> all[i] == was[i];
      assert i > |slabs| ==> all[i] == was[i - 1];
    }
  }

  /** A block cut from the current slab. */
  lemma CutOk(h: Heap, start: u32, limit: u32, size: nat)
    requires Inv(h, start, limit) && size % 4 == 0 && size <= h.slabSize
    ensures h.slabs == [] ==> size == 0
    ensures h.slabs != [] ==>
      Inv(h.(slabPtr := (h.slabPtr + size) % WORD, slabSize := h.slabSize - size,
             blocks := h.blocks + [Block(h.slabPtr, size)]), start, limit)
  {
    if h.slabs != [] {
      var b := Block(h.slabPtr, size);
      BelowEnds(h.blocks, start, h.slabPtr);
      DisjointFrom(h.blocks, b, h.slabPtr);
      assert Within(b, h.slabs[|h.slabs| - 1]);
      assert InSomeSlab(b, h.slabs);
      hide AllDisjoint, InSomeSlab;
      assert h.slabs[|h.slabs| - 1] == (h.slabs + h.others)[|h.slabs| - 1];
    }
  }

  lemma NextOk(h: Heap, start: u32, limit: u32, r: Request)
    requires Inv(h, start, limit) && Sensible(r) && Next(h, limit, r).Some?
    ensures Inv(Next(h, limit, r).value, start, limit)
  {
    match r
    case Allocate(size) =>
      hide Granted, AllDisjoint, AllBelow, AllInSlabs;
      if size <= h.slabSize {
        CutOk(h, start, limit, size);
      } else {
        FreshSlabOk(h, start, limit);
        var (end, grant) := Granted(h.end, limit, SLAB);
        CutOk(h.(end := end, slabPtr := grant.value, slabSize := SLAB, slabs := h.slabs + [Block(grant.value, SLAB)]),
              start, limit, size);
      }
    case Grow(incr) =>
      GrantIsSound(h.end, limit, incr);
      hide Granted, AllInSlabs;
      GrownOk(h, start, limit, incr);
  }

  lemma GrownOk(h: Heap, start: u32, limit: u32, incr: i32)
    requires Inv(h, start, limit) && incr >= 0
    ensures Inv(Grown(h, limit, incr), start, limit)
  {
    GrantIsSound(h.end, limit, incr);
    var (end, grant) := Granted(h.end, limit, incr);
    hide Granted, AllInSlabs;
    if grant.Some? {
      var b := Block(grant.value, incr);
      BelowEnds(h.slabs + h.others, start, h.end);
      DisjointFrom(h.slabs + h.others, b, h.end);
      assert h.slabs + h.others + [b] == h.slabs + (h.others + [b]);
      hide AllDisjoint;
    }
  }

  ghost function Run(h: Heap, limit: u32, rs: seq<Request>): Option<Heap>
    decreases |rs|
  {
    if rs == [] then Some(h)
    else
      var n := Next(h, limit, rs[0]);
      if n.None? then None else Run(n.value, limit, rs[1..])
  }

  ghost function Boot(start: u32): Heap {
    Heap(start, 0, 0, [], [], [])
  }

  lemma {:induction false} RunOk(h: Heap, start: u32, limit: u32, rs: seq<Request>)
    requires Inv(h, start, limit) && Run(h, limit, rs).Some?
    requires forall i :: 0 <= i < |rs| ==> Sensible(rs[i])
    ensures Inv(Run(h, limit, rs).value, start, limit)
    decreases |rs|
  {
    hide Inv, Next, Sensible;
    if rs != [] {
      NextOk(h, start, limit, rs[0]);
      RunOk(Next(h, limit, rs[0]).value, start, limit, rs[1..]);
    }
  }

  /**
   * Over every run of sensible requests in which slabs can be had: all blocks are word aligned,
   * pairwise disjoint and inside granted slabs, and all grants, to the allocator and to anybody
   * else, are word aligned, pairwise disjoint and between the heap's start and its limit.
   */
  lemma BlocksAreSound(start: u32, limit: u32, rs: seq<Request>)
    requires start <= limit && limit % 4 == 0 && limit + 0x8000_0000 < WORD
    requires forall i :: 0 <= i < |rs| ==> Sensible(rs[i])
    requires Run(Boot(start), limit, rs).Some?
    ensures var h := Run(Boot(start), limit, rs).value;
      && AllDisjoint(h.blocks) && AllInSlabs(h.blocks, h.slabs)
      && (forall i :: 0 <= i < |h.blocks| ==> h.blocks[i].lo % 4 == 0)
      && AllDisjoint(h.slabs + h.others) && AllBelow(h.slabs + h.others, start, limit)
  {
    RunOk(Boot(start), start, limit, rs);
    hide Run, AllDisjoint, AllInSlabs;
    var h := Run(Boot(start), limit, rs).value;
    assert forall i :: 0 <= i < |h.slabs + h.others| ==> (h.slabs + h.others)[i].End() <= h.end;
  }

  /** A fresh slab holds the block it is cut for exactly if the request is no larger than a slab. */
  lemma FitsIff(h: Heap, start: u32, limit: u32, size: nat)
    requires Inv(h, start, limit) && size > h.slabSize && Granted(h.end, limit, SLAB).1.Some?
    ensures var g := Allocated(h, limit, size).value;
      && Allocated(h, limit, size).Some? && |g.blocks| > 0 && |g.slabs| > 0
      && (Within(g.blocks[|g.blocks| - 1], g.slabs[|g.slabs| - 1]) <==> size <= SLAB)
  {
    hide Inv, AllDisjoint, AllBelow, AllInSlabs;
  }

  // ----- the functions as written

  class Allocator {
    const limit: u32
    var heapEnd: u32
    var slabPtr: u32
    var slabSize: int

    constructor (start: u32, limit: u32)
      ensures heapEnd == start && this.limit == limit && slabPtr == 0 && slabSize == 0
    {
      this.limit := limit;
      heapEnd, slabPtr, slabSize := start, 0, 0;
    }

    method Sbrk(incr: i32) returns (r: Option<u32>)
      modifies this`heapEnd
      ensures (heapEnd, r) == Granted(old(heapEnd), limit, incr)
    {
      heapEnd := Align(heapEnd) % WORD;
      if (heapEnd + incr) % WORD > limit { return None; }
      var prevHeapEnd := heapEnd;
      heapEnd := (heapEnd + incr) % WORD;
      return Some(prevHeapEnd);
    }

    /**
     * Cut a block from the current slab, or from a new one. The bookkeeping `h` stands for what
     * was granted and handed out so far; nothing is promised once `sbrk` has failed.
     */
    method Allocate(size: u32, ghost h: Heap) returns (data: u32, ghost h': Heap)
      requires h.end == heapEnd && h.slabPtr == slabPtr && h.slabSize == slabSize && 0 <= slabSize
      modifies this
      ensures Allocated(h, limit, size).Some? ==>
        && h' == Allocated(h, limit, size).value && h'.blocks == h.blocks + [Block(data, size)]
        && h'.end == heapEnd && h'.slabPtr == slabPtr && h'.slabSize == slabSize
    {
      hide Granted;
      h' := h;
      if size > slabSize {
        var slab := Sbrk(SLAB);
        slabPtr := if slab.Some? then slab.value else WORD - 1;
        slabSize := SLAB;
      }
      data := slabPtr;
      slabPtr := (slabPtr + size) % WORD;
      slabSize := slabSize - size;
      if Allocated(h, limit, size).Some? { h' := Allocated(h, limit, size).value; }
    }
  }
}
