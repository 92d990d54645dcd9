/**
  sbrk and the slab carver of the profiler on top of it: who owns which bytes, over every sequence of
  requests. Addresses are 32-bit; the heap lies in the lower half of them.
 */
module HeapSlab {

  const ADDRESSES: nat := 0x1_0000_0000
  const SLAB: nat := 1020
  const FAILED: nat := 0xFFFF_FFFF      // (caddr_t) -1

  /** Where the linker puts the heap. */
  datatype Area = Area(start: nat, limit: nat)

  ghost predicate Mapped(a: Area) { a.start <= a.limit <= 0x7FFF_FFFC }

  datatype State = State(end: nat, slabPtr: nat, slabSize: int)

  /** Bytes handed to a client. */
  datatype Block = Block(addr: nat, len: nat)

  function Align(x: nat): (r: nat)
    ensures r % 4 == 0
    ensures x + 3 < ADDRESSES ==> x <= r < x + 4
  {
    (x + 3) % ADDRESSES / 4 * 4
  }

  /** Where a pointer moved by `incr` bytes points to. */
  function Move(p: nat, incr: int): nat { (p + incr) % ADDRESSES }

  /** sbrk: a refused request still leaves the end of the heap aligned. */
  function Sbrk(a: Area, s: State, incr: int): (State, nat) {
    var end := Align(s.end);
    if Move(end, incr) > a.limit then (s.(end := end), FAILED) else (s.(end := Move(end, incr)), end)
  }

  predicate NeedsRefill(s: State, size: nat) { size > s.slabSize }

  /** mcount_allocate: a slab that is too small is given up for a fresh one. */
  function Carve(a: Area, s: State, size: nat): (State, nat) {
    if NeedsRefill(s, size) then
      var (s', p) := Sbrk(a, s, SLAB);
      (State(s'.end, Move(p, size), SLAB - size), p)
    else (s.(slabPtr := Move(s.slabPtr, size), slabSize := s.slabSize - size), s.slabPtr)
  }

  // ---------------------------------------------------------------- runs

  datatype Request = Grow(incr: int) | Slice(size: nat)

  /** What clients may ask for: sbrk does not shrink the heap, a slice fits a slab, and if a slice needs a
      new slab there is room for it. */
  ghost predicate Allowed(a: Area, s: State, r: Request) {
    match r
    case Grow(incr) => 0 <= incr < 0x8000_0000
    case Slice(size) => size <= SLAB && (NeedsRefill(s, size) ==> Sbrk(a, s, SLAB).1 != FAILED)
  }

  datatype World = World(state: State, blocks: seq<Block>)

  function Served(a: Area, w: World, r: Request): World {
    match r
    case Grow(incr) =>
      var (s, p) := Sbrk(a, w.state, incr);
      World(s, if p == FAILED || incr < 0 then w.blocks else w.blocks + [Block(p, incr)])
    case Slice(size) =>
      var (s, p) := Carve(a, w.state, size);
      World(s, w.blocks + [Block(p, size)])
  }

  function Initially(a: Area): World { World(State(a.start, 0, 0), []) }

  ghost predicate Run(a: Area, rs: seq<Request>)
    decreases |rs|, 0
  {
    rs == [] || (Run(a, rs[..|rs| - 1]) && Allowed(a, End(a, rs[..|rs| - 1]).state, rs[|rs| - 1]))
  }

  ghost function End(a: Area, rs: seq<Request>): World
    requires Run(a, rs)
    decreases |rs|, 1
  {
    if rs == [] then Initially(a) else Served(a, End(a, rs[..|rs| - 1]), rs[|rs| - 1])
  }

  // ---------------------------------------------------------------- ownership

  /** No byte belongs to both; a block of no bytes is apart from all. */
  ghost predicate Apart(b: Block, c: Block) {
    b.len == 0 || c.len == 0 || b.addr + b.len <= c.addr || c.addr + c.len <= b.addr
  }

  ghost predicate Inside(a: Area, s: State, b: Block) {
    b.len > 0 ==> a.start <= b.addr && b.addr + b.len <= a.limit && b.addr + b.len <= s.end
  }

  /** The bytes kept back for the next slices. */
  ghost function Rest(s: State): Block
    requires s.slabSize >= 0
  {
    Block(s.slabPtr, s.slabSize)
  }

  ghost predicate Owned(a: Area, w: World) {
    && a.start <= w.state.end <= Align(a.limit) && 0 <= w.state.slabSize
    && Inside(a, w.state, Rest(w.state))
    && (forall i :: 0 <= i < |w.blocks| ==> Inside(a, w.state, w.blocks[i]))
    && (forall i, j :: 0 <= i < j < |w.blocks| ==> Apart(w.blocks[i], w.blocks[j]))
    && (forall i :: 0 <= i < |w.blocks| ==> Apart(w.blocks[i], Rest(w.state)))
  }

  /** A granted request for `incr` bytes is a fresh aligned block behind everything handed out so far. */
  lemma SbrkGrants(a: Area, s: State, incr: int)
    requires Mapped(a) && a.start <= s.end <= Align(a.limit) && 0 <= incr < 0x8000_0000
    ensures var (s', p) := Sbrk(a, s, incr);
      && (if p == FAILED then s'.end == Align(s.end) && Align(s.end) + incr > a.limit
          else p % 4 == 0 && s.end <= p < s.end + 4 && p + incr == s'.end && s'.end <= a.limit)
      && s.end <= s'.end <= Align(a.limit) && s'.slabPtr == s.slabPtr && s'.slabSize == s.slabSize
  {
    var end := Align(s.end);
    assert Move(end, incr) == end + incr;
  }

  lemma GrowKeeps(a: Area, w: World, incr: int)
    requires Mapped(a) && Owned(a, w) && 0 <= incr < 0x8000_0000
    ensures Owned(a, Served(a, w, Grow(incr)))
  {
    SbrkGrants(a, w.state, incr);
    hide Sbrk;
  }

  lemma SliceKeeps(a: Area, w: World, size: nat)
    requires Mapped(a) && Owned(a, w) && Allowed(a, w.state, Slice(size))
    ensures Owned(a, Served(a, w, Slice(size)))
  {
    hide Sbrk, Align;
    SbrkGrants(a, w.state, SLAB);
    var p := if NeedsRefill(w.state, size) then Sbrk(a, w.state, SLAB).1 else w.state.slabPtr;
    if size > 0 {
      assert p + size <= a.limit;
      MoveOnwards(p, size);
    }
    hide Move;
  }

  lemma MoveOnwards(p: nat, size: nat)
    requires p + size < ADDRESSES
    ensures Move(p, size) == p + size
  {
  }

  /** In every run all blocks handed to clients are pairwise disjoint and inside the heap. */
  lemma {:induction false} BlocksNeverOverlap(a: Area, rs: seq<Request>)
    requires Mapped(a) && Run(a, rs)
    ensures Owned(a, End(a, rs))
    decreases |rs|
  {
    if rs != [] {
      hide Owned;
      BlocksNeverOverlap(a, rs[..|rs| - 1]);
      var w, r := End(a, rs[..|rs| - 1]), rs[|rs| - 1];
      match r {
        case Grow(incr) => GrowKeeps(a, w, incr);
        case Slice(size) => SliceKeeps(a, w, size);
      }
    } else {
      hide *;
      NothingOwned(a);
    }
  }

  lemma NothingOwned(a: Area)
    requires Mapped(a)
    ensures Owned(a, End(a, []))
  {
  }

  ghost predicate Aligned(w: World) {
    && (w.state.slabSize > 0 ==> w.state.slabPtr % 4 == 0)
    && forall i :: 0 <= i < |w.blocks| ==> w.blocks[i].len > 0 ==> w.blocks[i].addr % 4 == 0
  }

  lemma RequestAligned(a: Area, w: World, r: Request)
    requires Mapped(a) && Owned(a, w) && Allowed(a, w.state, r) && Aligned(w)
    requires r.Slice? ==> r.size % 4 == 0
    ensures Aligned(Served(a, w, r))
  {
    hide Sbrk, Align, Move, Apart;
    SbrkGrants(a, w.state, if r.Grow? then r.incr else SLAB);
    if r.Slice? && (r.size > 0 || w.state.slabSize > 0) {
      var p := if NeedsRefill(w.state, r.size) then Sbrk(a, w.state, SLAB).1 else w.state.slabPtr;
      MoveOnwards(p, r.size);
      SumAligned(p, r.size);
    }
    hide Inside;
  }

  lemma SumAligned(p: nat, size: nat)
    requires p % 4 == 0 && size % 4 == 0
    ensures (p + size) % 4 == 0
  {
  }

  /** If all slices are multiples of four bytes, every block handed out is aligned. */
  lemma {:induction false} BlocksAligned(a: Area, rs: seq<Request>)
    requires Mapped(a) && Run(a, rs)
    requires forall i :: 0 <= i < |rs| && rs[i].Slice? ==> rs[i].size % 4 == 0
    ensures Aligned(End(a, rs))
    decreases |rs|
  {
    if rs == [] {
    } else {
      hide Owned, Aligned, Served, Allowed;
      BlocksAligned(a, rs[..|rs| - 1]);
      BlocksNeverOverlap(a, rs[..|rs| - 1]);
      RequestAligned(a, End(a, rs[..|rs| - 1]), rs[|rs| - 1]);
    }
  }

  /** A slice is the front of what the slab has left, or of a fresh slab at the end of the heap if that is too little;
      the bytes behind it are kept for the next one. */
  lemma SliceTakesFront(a: Area, w: World, size: nat)
    requires Mapped(a) && Owned(a, w) && Allowed(a, w.state, Slice(size)) && size > 0
    ensures var after := Served(a, w, Slice(size));
      var b := after.blocks[|w.blocks|];
      && after.blocks == w.blocks + [b] && b.len == size && after.state.slabPtr == b.addr + size
      && (if size <= w.state.slabSize then
            b.addr == w.state.slabPtr && after.state.slabSize == w.state.slabSize - size
            && after.state.end == w.state.end
          else
            w.state.end <= b.addr < w.state.end + 4 && after.state.end == b.addr + SLAB
            && after.state.slabSize == SLAB - size)
  {
    SbrkGrants(a, w.state, SLAB);
    hide Sbrk, Align;
    MoveOnwards(if NeedsRefill(w.state, size) then Sbrk(a, w.state, SLAB).1 else w.state.slabPtr, size);
    hide Move;
  }

  function Sum(sizes: seq<nat>): (n: nat)
    decreases |sizes|
  {
    if sizes == [] then 0 else Sum(sizes[..|sizes| - 1]) + sizes[|sizes| - 1]
  }

  /** Blocks of these sizes, one behind the other. */
  function Row(addr: nat, sizes: seq<nat>): seq<Block>
    decreases |sizes|
  {
    if sizes == [] then []
    else var n := |sizes| - 1; Row(addr, sizes[..n]) + [Block(addr + Sum(sizes[..n]), sizes[n])]
  }

  function AfterSlices(a: Area, w: World, sizes: seq<nat>): World
    decreases |sizes|
  {
    if sizes == [] then w
    else var n := |sizes| - 1; Served(a, AfterSlices(a, w, sizes[..n]), Slice(sizes[n]))
  }

  /** Slices that together fit what a slab has left all come from it, one behind the other, and the heap does not
      grow. */
  lemma SlicesShareSlab(a: Area, w: World, sizes: seq<nat>)
    requires Mapped(a) && Owned(a, w) && 0 < Sum(sizes) <= w.state.slabSize
    ensures var after := AfterSlices(a, w, sizes);
      && after.blocks == w.blocks + Row(w.state.slabPtr, sizes) && after.state.end == w.state.end
      && after.state.slabPtr == w.state.slabPtr + Sum(sizes)
      && after.state.slabSize == w.state.slabSize - Sum(sizes)
  {
    SlicesFromSlab(a, w, sizes);
  }

  lemma {:induction false} SlicesFromSlab(a: Area, w: World, sizes: seq<nat>)
    requires Sum(sizes) <= w.state.slabSize && w.state.slabPtr + w.state.slabSize < ADDRESSES
    ensures var after := AfterSlices(a, w, sizes);
      && after.blocks == w.blocks + Row(w.state.slabPtr, sizes) && after.state.end == w.state.end
      && after.state.slabPtr == w.state.slabPtr + Sum(sizes)
      && after.state.slabSize == w.state.slabSize - Sum(sizes)
    decreases |sizes|
  {
    if sizes != [] {
      var n := |sizes| - 1;
      SlicesFromSlab(a, w, sizes[..n]);
      MoveOnwards(w.state.slabPtr + Sum(sizes[..n]), sizes[n]);
      hide Move, Sbrk;
    }
  }

  /** Without room for a new slab the carver hands out bytes outside the heap: a slice is inside just when
      it needs no new slab or there is room for one. */
  lemma SliceInsideWhen(a: Area, w: World, size: nat)
    requires Mapped(a) && Owned(a, w) && 0 < size <= SLAB
    ensures var (s', p) := Carve(a, w.state, size);
      Inside(a, s', Block(p, size)) <==> !NeedsRefill(w.state, size) || Align(w.state.end) + SLAB <= a.limit
  {
    SbrkGrants(a, w.state, SLAB);
    hide Sbrk;
  }

  /** A heap of 2000 bytes of which a client has taken 1000: the first slice of 8 bytes is handed out at the
      error value of sbrk. */
  lemma SliceOutsideFullHeap()
    ensures var a, rs := Area(0x1000_0000, 0x1000_07D0), [Grow(1000)];
      && Mapped(a) && Run(a, rs) && End(a, rs).blocks == [Block(0x1000_0000, 1000)]
      && Carve(a, End(a, rs).state, 8).1 == FAILED
      && !Inside(a, Carve(a, End(a, rs).state, 8).0, Block(FAILED, 8))
  {
    var a, rs := Area(0x1000_0000, 0x1000_07D0), [Grow(1000)];
    assert rs[..0] == [];
    assert Run(a, []) && End(a, []) == Initially(a);
    assert End(a, rs) == Served(a, Initially(a), Grow(1000));
  }

  // ---------------------------------------------------------------- the code

  class Heap {
    const area: Area
    var heapEnd: nat
    var slabPtr: nat
    var slabSize: int
    ghost var world: World
    ghost var requests: seq<Request>

    ghost predicate Valid()
      reads this
    {
      && Mapped(area) && Run(area, requests) && world == End(area, requests)
      && world.state == State(heapEnd, slabPtr, slabSize)
    }

    constructor (a: Area)
      requires Mapped(a)
      ensures Valid() && area == a && requests == []
    {
      area := a;
      heapEnd, slabPtr, slabSize := a.start, 0, 0;
      world, requests := Initially(a), [];
    }

    /** The assignments of sbrk; addresses are unsigned. */
    method Extend(incr: int) returns (p: nat)
      modifies this`heapEnd
      ensures var (s, q) := Sbrk(area, old(State(heapEnd, slabPtr, slabSize)), incr);
        heapEnd == s.end && p == q
    {
      heapEnd := Align(heapEnd);
      if Move(heapEnd, incr) > area.limit {
        return FAILED;
      }
      var prevHeapEnd := heapEnd;
      heapEnd := Move(heapEnd, incr);
      return prevHeapEnd;
    }

    lemma Log(r: Request)
      requires Valid() && Allowed(area, world.state, r)
      ensures Run(area, requests + [r]) && End(area, requests + [r]) == Served(area, world, r)
    {
      assert (requests + [r])[..|requests|] == requests;
    }

    /** sbrk for a client. */
    method ClientSbrk(incr: int) returns (p: nat)
      requires Valid() && 0 <= incr < 0x8000_0000
      modifies this
      ensures Valid() && requests == old(requests) + [Grow(incr)]
      ensures p != FAILED ==> p % 4 == 0 && world.blocks == old(world.blocks) + [Block(p, incr)]
      ensures p == FAILED ==> world.blocks == old(world.blocks) && Align(old(heapEnd)) + incr > area.limit
    {
      Log(Grow(incr));
      BlocksNeverOverlap(area, requests);
      SbrkGrants(area, world.state, incr);
      hide Run, End, Sbrk;
      p := Extend(incr);
      world, requests := Served(area, world, Grow(incr)), requests + [Grow(incr)];
    }

    /** mcount_allocate. */
    method Allocate(size: nat) returns (data: nat)
      requires Valid() && Allowed(area, State(heapEnd, slabPtr, slabSize), Slice(size))
      modifies this
      ensures Valid() && requests == old(requests) + [Slice(size)]
      ensures world.blocks == old(world.blocks) + [Block(data, size)]
    {
      Log(Slice(size));
      hide Run, End, Sbrk;
      if size > slabSize {
        slabPtr := Extend(SLAB);
        slabSize := SLAB;
      }
      data := slabPtr;
      slabPtr := Move(slabPtr, size);
      slabSize := slabSize - size;
      world, requests := Served(area, world, Slice(size)), requests + [Slice(size)];
    }
  }
}
