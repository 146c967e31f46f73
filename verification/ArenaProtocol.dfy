/** The arena as a protocol between threads: any number of arenas, any interleaving of
    allocations, resets and destructions. Each load, store and exchange is one step;
    resets and destructions find their arena quiescent, as its header demands. */
module ArenaProtocol {

  import opened Basics
  import opened ArenaLayout

  type ThreadId = nat
  type ArenaId = nat

  /** A pointer to a block of an arena. It remembers the life of the arena in which the
      block was published; when that life is over, the pointer dangles. The code never
      compares these pointers. */
  datatype Pointer = Pointer(life: nat, index: nat)

  datatype Block = Block(owner: ThreadId, size: nat, pos: nat)
  {
    function Avail(): int { size - pos }
    function Used(): int { pos - HEADER }
    function Capacity(): int { size - HEADER }
  }

  /** Memory handed out: `size` bytes of a block from offset `start` on. */
  datatype Region = Region(thread: ThreadId, block: nat, start: nat, size: nat)

  /** The blocks are listed oldest first, so blocks_ points to the last one. `regions`
      records what was handed out in this life, `requested` what was asked for. */
  datatype Arena = Arena(life: nat, blocks: seq<Block>, hint: Option<Pointer>, spaceAllocated: nat,
                         lock: Option<ThreadId>, ownsFirstBlock: bool, startSize: nat, maxSize: nat,
                         regions: seq<Region>, requested: nat)

  /** Where a thread is in AllocateAligned. */
  datatype Pc =
    | Idle
    | Entered(a: ArenaId, n: nat)
    | HintLoad(a: ArenaId, n: nat)
    | HintCheck(a: ArenaId, n: nat, b: Pointer)
    | SlowStart(a: ArenaId, n: nat)
    | Walking(a: ArenaId, n: nat, k: nat)
    | Found(a: ArenaId, n: nat, b: Pointer)
    | CacheSet(a: ArenaId, n: nat, b: Pointer)
    | BumpRead(a: ArenaId, n: nat, b: Pointer)
    | BumpWrite(a: ArenaId, n: nat, b: Pointer, p: nat)
    | NotFound(a: ArenaId, n: nat, last: Option<Pointer>)
    | Created(a: ArenaId, n: nat, last: Option<Pointer>, block: Block)
    | Locked(a: ArenaId, n: nat, last: Option<Pointer>, block: Block)
    | ListPublished(a: ArenaId, n: nat, b: Pointer)
    | HintPublished(a: ArenaId, n: nat, b: Pointer)
    | Unlocked(a: ArenaId, n: nat, b: Pointer)

  /** A thread: its ThreadCache, whose id is -1 at first, and where it is. */
  datatype Local = Local(seen: int, cached: Option<Pointer>, pc: Pc)

  // ----- One thread's steps ----------------------------------------------------

  predicate Live(x: Arena, p: Pointer)
  {
    p.life == x.life && p.index < |x.blocks|
  }

  /** Reads a block; what a dangling pointer yields is of no account, for no step
      follows one. */
  function Deref(x: Arena, p: Pointer): Block
  {
    if Live(x, p) then x.blocks[p.index] else Block(0, 0, 0)
  }

  function NewBlock(x: Arena, t: ThreadId, last: Option<Pointer>, n: nat): Block
  {
    var lastSize := if last.None? then None else Some(Deref(x, last.value).size);
    Block(t, NewBlockSize(lastSize, n, x.startSize, x.maxSize), HEADER + n)
  }

  function Cached(l: Local, x: Arena, b: Pointer): Local
  {
    l.(seen := x.life, cached := Some(b))
  }

  /** AllocFromBlock's write, and the region it hands out. */
  function Bumped(x: Arena, t: ThreadId, i: nat, p: nat, n: nat): Arena
    requires i < |x.blocks|
  {
    x.(blocks := x.blocks[i := x.blocks[i].(pos := p + n)], regions := x.regions + [Region(t, i, p, n)])
  }

  /** AddBlock's write of blocks_; the request starts the new block. */
  function Published(x: Arena, t: ThreadId, block: Block, n: nat): Arena
  {
    x.(blocks := x.blocks + [block], regions := x.regions + [Region(t, |x.blocks|, HEADER, n)])
  }

  /** What the arena becomes. */
  function ArenaAfter(x: Arena, t: ThreadId, l: Local): Arena
  {
    match l.pc
    case CacheSet(_, _, b) => x.(hint := Some(b))
    case BumpWrite(_, n, b, p) =>
      if Live(x, b) then Bumped(x, t, b.index, p, n) else x
    case Created(_, _, _, _) => if x.lock.None? then x.(lock := Some(t)) else x
    case Locked(_, n, _, block) => Published(x, t, block, n)
    case ListPublished(_, _, b) => if Deref(x, b).Avail() != 0 then x.(hint := Some(b)) else x
    case HintPublished(_, _, b) => x.(spaceAllocated := x.spaceAllocated + Deref(x, b).size, lock := None)
    case _ => x
  }

  /** What the thread becomes. */
  function LocalAfter(x: Arena, t: ThreadId, l: Local): Local
  {
    match l.pc
    case Idle => l
    case Entered(a, n) =>
      if l.seen == x.life && l.cached.Some? then
        if Deref(x, l.cached.value).Avail() < n then l.(pc := SlowStart(a, n))
        else l.(pc := BumpRead(a, n, l.cached.value))
      else l.(pc := HintLoad(a, n))
    case HintLoad(a, n) => l.(pc := if x.hint.None? then SlowStart(a, n) else HintCheck(a, n, x.hint.value))
    case HintCheck(a, n, b) =>
      l.(pc := if Deref(x, b).owner != t || Deref(x, b).Avail() < n then SlowStart(a, n) else BumpRead(a, n, b))
    case SlowStart(a, n) => l.(pc := Walking(a, n, |x.blocks|))
    case Walking(a, n, k) =>
      l.(pc := if k == 0 then NotFound(a, n, None)
               else if Deref(x, Pointer(x.life, k - 1)).owner == t then Found(a, n, Pointer(x.life, k - 1))
               else Walking(a, n, k - 1))
    case Found(a, n, b) =>
      if Deref(x, b).Avail() >= n then Cached(l, x, b).(pc := CacheSet(a, n, b))
      else l.(pc := NotFound(a, n, Some(b)))
    case CacheSet(a, n, b) => l.(pc := BumpRead(a, n, b))
    case BumpRead(a, n, b) => l.(pc := BumpWrite(a, n, b, Deref(x, b).pos))
    case BumpWrite(_, _, _, _) => l.(pc := Idle)
    case NotFound(a, n, last) => l.(pc := Created(a, n, last, NewBlock(x, t, last, n)))
    case Created(a, n, last, block) => if x.lock.None? then l.(pc := Locked(a, n, last, block)) else l
    case Locked(a, n, _, _) => l.(pc := ListPublished(a, n, Pointer(x.life, |x.blocks|)))
    case ListPublished(a, n, b) => l.(pc := HintPublished(a, n, b))
    case HintPublished(a, n, b) => l.(pc := Unlocked(a, n, b))
    case Unlocked(_, _, b) => Cached(l, x, b).(pc := Idle)
  }

  /** The pointer that the next step follows, if any. */
  function Followed(x: Arena, l: Local): Option<Pointer>
  {
    match l.pc
    case Entered(_, _) => if l.seen == x.life then l.cached else None
    case HintCheck(_, _, b) => Some(b)
    case Walking(_, _, k) => if k == 0 then None else Some(Pointer(x.life, k - 1))
    case Found(_, _, b) => Some(b)
    case BumpRead(_, _, b) => Some(b)
    case BumpWrite(_, _, b, _) => Some(b)
    case NotFound(_, _, last) => last
    case ListPublished(_, _, b) => Some(b)
    case HintPublished(_, _, b) => Some(b)
    case _ => None
  }

  // ----- Invariants of one arena -----------------------------------------------

  function SumUsed(blocks: seq<Block>): int
  {
    if blocks == [] then 0 else SumUsed(blocks[..|blocks| - 1]) + blocks[|blocks| - 1].Used()
  }

  function SumSize(blocks: seq<Block>): nat
  {
    if blocks == [] then 0 else SumSize(blocks[..|blocks| - 1]) + blocks[|blocks| - 1].size
  }

  function SumRegions(regions: seq<Region>): nat
  {
    if regions == [] then 0 else SumRegions(regions[..|regions| - 1]) + regions[|regions| - 1].size
  }

  ghost predicate BlockOk(b: Block)
  {
    HEADER <= b.pos <= b.size && b.pos % 8 == 0
  }

  ghost predicate BlocksOk(blocks: seq<Block>)
  {
    forall i :: 0 <= i < |blocks| ==> BlockOk(blocks[i])
  }

  /** A region lies in a block of its thread, past the header, aligned, and below the
      block's position. */
  ghost predicate RegionOk(blocks: seq<Block>, r: Region)
  {
    && r.block < |blocks| && blocks[r.block].owner == r.thread
    && HEADER <= r.start && r.start % 8 == 0 && r.size % 8 == 0
    && r.start + r.size <= blocks[r.block].pos
  }

  predicate Disjoint(r: Region, s: Region)
  {
    r.block != s.block || r.start + r.size <= s.start || s.start + s.size <= r.start
  }

  ghost predicate RegionsOk(blocks: seq<Block>, regions: seq<Region>)
  {
    && (forall i :: 0 <= i < |regions| ==> RegionOk(blocks, regions[i]))
    && (forall i, j {:trigger Disjoint(regions[i], regions[j])} :: 0 <= i < j < |regions| ==> Disjoint(regions[i], regions[j]))
  }

  /** `j` is the thread's next block after `i`. */
  ghost predicate NextOwn(blocks: seq<Block>, i: nat, j: nat)
  {
    && i < j < |blocks| && blocks[i].owner == blocks[j].owner
    && forall k :: i < k < j ==> blocks[k].owner != blocks[i].owner
  }

  /** A thread starts a block only when its last one cannot take the request. */
  ghost predicate WellUsed(blocks: seq<Block>)
  {
    forall i, j {:trigger NextOwn(blocks, i, j)} :: 0 <= i < j < |blocks| && NextOwn(blocks, i, j) ==>
      blocks[i].Capacity() < blocks[i].Used() + blocks[j].Used()
  }

  /** A thread's blocks double in size until they reach the limit. */
  ghost predicate Growing(blocks: seq<Block>, maxSize: nat)
  {
    forall i, j {:trigger NextOwn(blocks, i, j)} :: 0 <= i < j < |blocks| && NextOwn(blocks, i, j) ==>
      blocks[j].size >= 2 * blocks[i].size || blocks[j].size >= maxSize
  }

  ghost predicate ListsOk(blocks: seq<Block>, regions: seq<Region>, maxSize: nat)
  {
    && BlocksOk(blocks) && RegionsOk(blocks, regions) && SumRegions(regions) == SumUsed(blocks)
    && WellUsed(blocks) && Growing(blocks, maxSize)
  }

  ghost predicate ArenaOk(x: Arena)
  {
    && ListsOk(x.blocks, x.regions, x.maxSize)
    && (x.hint.Some? ==> Live(x, x.hint.value))
    && (x.lock.None? ==> x.spaceAllocated == SumSize(x.blocks))
    && (!x.ownsFirstBlock ==> x.blocks != [])
  }

  ghost predicate NoneOwned(x: Arena, t: ThreadId, from: nat)
  {
    forall i :: from <= i < |x.blocks| ==> x.blocks[i].owner != t
  }

  /** What FindBlock returns: the thread's newest block. */
  ghost predicate IsNewest(x: Arena, t: ThreadId, p: Pointer)
  {
    Live(x, p) && x.blocks[p.index].owner == t && NoneOwned(x, t, p.index + 1)
  }

  /** The outcome of a search, and that the request does not fit there. */
  ghost predicate NoRoom(x: Arena, t: ThreadId, n: nat, last: Option<Pointer>)
  {
    if last.None? then NoneOwned(x, t, 0)
    else IsNewest(x, t, last.value) && x.blocks[last.value.index].Avail() < n
  }

  ghost predicate NewBlockOk(x: Arena, t: ThreadId, n: nat, last: Option<Pointer>, block: Block)
  {
    && block.owner == t && block.pos == HEADER + n <= block.size
    && (last.None? ==> block.size >= x.startSize && (block.size == HEADER + n || block.size == x.startSize))
    && (last.Some? ==>
          var doubled := 2 * Deref(x, last.value).size;
          && (block.size >= doubled || block.size >= x.maxSize)
          && (block.size == HEADER + n || (block.size <= doubled && block.size <= x.maxSize)))
  }

  predicate HoldsLock(pc: Pc)
  {
    pc.Locked? || pc.ListPublished? || pc.HintPublished?
  }

  ghost predicate MayBump(x: Arena, t: ThreadId, n: nat, b: Pointer)
  {
    Live(x, b) && x.blocks[b.index].owner == t && x.blocks[b.index].Avail() >= n
  }

  /** What a thread inside AllocateAligned relies on. */
  ghost predicate PcOk(x: Arena, t: ThreadId, pc: Pc)
  {
    match pc
    case Idle => true
    case Entered(_, n) => n % 8 == 0
    case HintLoad(_, n) => n % 8 == 0
    case HintCheck(_, n, b) => n % 8 == 0 && Live(x, b)
    case SlowStart(_, n) => n % 8 == 0
    case Walking(_, n, k) => n % 8 == 0 && k <= |x.blocks| && NoneOwned(x, t, k)
    case Found(_, n, b) => n % 8 == 0 && IsNewest(x, t, b)
    case CacheSet(_, n, b) => n % 8 == 0 && IsNewest(x, t, b) && MayBump(x, t, n, b)
    case BumpRead(_, n, b) => n % 8 == 0 && MayBump(x, t, n, b)
    case BumpWrite(_, n, b, p) => n % 8 == 0 && MayBump(x, t, n, b) && p == x.blocks[b.index].pos
    case NotFound(_, n, last) => n % 8 == 0 && NoRoom(x, t, n, last)
    case Created(_, n, last, block) => n % 8 == 0 && NoRoom(x, t, n, last) && NewBlockOk(x, t, n, last, block)
    case Locked(_, n, last, block) =>
      n % 8 == 0 && NoRoom(x, t, n, last) && NewBlockOk(x, t, n, last, block)
      && x.lock == Some(t) && x.spaceAllocated == SumSize(x.blocks)
    case ListPublished(_, n, b) => IsNewest(x, t, b) && SpaceOwed(x, t, b)
    case HintPublished(_, n, b) => IsNewest(x, t, b) && SpaceOwed(x, t, b)
    case Unlocked(_, n, b) => IsNewest(x, t, b)
  }

  /** The block just published is not counted yet, and no other can be published. */
  ghost predicate SpaceOwed(x: Arena, t: ThreadId, b: Pointer)
  {
    && x.lock == Some(t) && b.index == |x.blocks| - 1
    && x.spaceAllocated == SumSize(x.blocks[..|x.blocks| - 1])
  }

  /** Between publishing a block and caching it. */
  predicate Publishing(pc: Pc)
  {
    pc.ListPublished? || pc.HintPublished? || pc.Unlocked?
  }

  /** A cache that matches the arena holds what FindBlock would return, but while its
      thread has a publication under way; then it holds an older block of the thread. */
  ghost predicate CacheOk(x: Arena, a: ArenaId, t: ThreadId, l: Local)
  {
    l.seen == x.life && l.cached.Some? ==>
      && Live(x, l.cached.value) && x.blocks[l.cached.value.index].owner == t
      && if Publishing(l.pc) && l.pc.a == a then l.cached.value.index < l.pc.b.index else IsNewest(x, t, l.cached.value)
  }

  // ----- Steps keep the invariants ---------------------------------------------

  /** What another thread may see change when `t` takes a step. */
  ghost predicate Evolves(x: Arena, y: Arena, t: ThreadId)
  {
    && y.life == x.life && y.startSize == x.startSize && y.maxSize == x.maxSize && |y.blocks| >= |x.blocks|
    && (forall i :: 0 <= i < |x.blocks| ==> y.blocks[i].owner == x.blocks[i].owner)
    && (forall i :: 0 <= i < |x.blocks| && x.blocks[i].owner != t ==> y.blocks[i] == x.blocks[i])
    && (forall i :: |x.blocks| <= i < |y.blocks| ==> y.blocks[i].owner == t)
    && (x.lock.Some? && x.lock.value != t ==>
          && y.lock == x.lock && y.spaceAllocated == x.spaceAllocated && |y.blocks| == |x.blocks|
          && SumSize(y.blocks) == SumSize(x.blocks)
          && (x.blocks != [] ==> SumSize(y.blocks[..|y.blocks| - 1]) == SumSize(x.blocks[..|x.blocks| - 1])))
  }

  lemma OthersKeepPc(x: Arena, y: Arena, t: ThreadId, u: ThreadId, pc: Pc)
    requires u != t && Evolves(x, y, t) && PcOk(x, u, pc)
    ensures PcOk(y, u, pc)
  {
  }

  lemma OthersKeepCache(x: Arena, y: Arena, a: ArenaId, t: ThreadId, u: ThreadId, l: Local)
    requires u != t && Evolves(x, y, t) && CacheOk(x, a, u, l)
    ensures CacheOk(y, a, u, l)
  {
  }

  lemma {:induction false} SumSizeOfUpdate(blocks: seq<Block>, i: nat, b: Block)
    requires i < |blocks| && b.size == blocks[i].size
    ensures SumSize(blocks[i := b]) == SumSize(blocks)
  {
    var last := |blocks| - 1;
    if i < last {
      assert blocks[i := b][..last] == blocks[..last][i := b];
      SumSizeOfUpdate(blocks[..last], i, b);
    } else {
      assert blocks[i := b][..last] == blocks[..last];
    }
  }

  lemma {:induction false} SumUsedOfUpdate(blocks: seq<Block>, i: nat, b: Block)
    requires i < |blocks|
    ensures SumUsed(blocks[i := b]) == SumUsed(blocks) - blocks[i].pos + b.pos
  {
    var last := |blocks| - 1;
    if i < last {
      assert blocks[i := b][..last] == blocks[..last][i := b];
      SumUsedOfUpdate(blocks[..last], i, b);
    } else {
      assert blocks[i := b][..last] == blocks[..last];
    }
  }

  /** `x` with other blocks and regions is as good if these are. */
  lemma RebuiltIsOk(x: Arena, blocks: seq<Block>, regions: seq<Region>)
    requires ArenaOk(x) && |blocks| >= |x.blocks| && (x.lock.None? ==> SumSize(blocks) == SumSize(x.blocks))
    requires ListsOk(blocks, regions, x.maxSize)
    ensures ArenaOk(x.(blocks := blocks, regions := regions))
  {
  }

  /** Bumping: only the owner writes the position, so what it read still holds. */
  lemma BumpKeeps(x: Arena, t: ThreadId, i: nat, n: nat)
    requires ArenaOk(x) && i < |x.blocks| && x.blocks[i].owner == t && x.blocks[i].Avail() >= n && n % 8 == 0
    ensures ArenaOk(Bumped(x, t, i, x.blocks[i].pos, n))
  {
    var b := x.blocks[i].(pos := x.blocks[i].pos + n);
    var r := Region(t, i, x.blocks[i].pos, n);
    BumpKeepsLists(x.blocks, x.regions, x.maxSize, i, b, r);
    SumSizeOfUpdate(x.blocks, i, b);
    RebuiltIsOk(x, x.blocks[i := b], x.regions + [r]);
  }

  lemma BumpKeepsLists(blocks: seq<Block>, regions: seq<Region>, maxSize: nat, i: nat, b: Block, r: Region)
    requires ListsOk(blocks, regions, maxSize) && i < |blocks|
    requires r == Region(blocks[i].owner, i, blocks[i].pos, r.size) && r.size % 8 == 0 && blocks[i].Avail() >= r.size
    requires b == blocks[i].(pos := blocks[i].pos + r.size)
    ensures ListsOk(blocks[i := b], regions + [r], maxSize)
  {
    BumpKeepsBlocks(blocks, i, b);
    BumpKeepsRegions(blocks, regions, i, b, r);
    BumpBalances(blocks, regions, i, b, r);
    BumpKeepsWellUsed(blocks, i, b, maxSize);
  }

  lemma BumpKeepsBlocks(blocks: seq<Block>, i: nat, b: Block)
    requires BlocksOk(blocks) && i < |blocks| && BlockOk(b) && b.size == blocks[i].size
    ensures BlocksOk(blocks[i := b])
  {
  }

  lemma BumpEvolves(x: Arena, t: ThreadId, i: nat, n: nat)
    requires i < |x.blocks| && x.blocks[i].owner == t
    ensures Evolves(x, Bumped(x, t, i, x.blocks[i].pos, n), t)
  {
    var b := x.blocks[i].(pos := x.blocks[i].pos + n);
    SumSizeOfUpdate(x.blocks, i, b);
    BumpKeepsLastSum(x.blocks, i, b);
  }

  lemma BumpKeepsLastSum(blocks: seq<Block>, i: nat, b: Block)
    requires i < |blocks| && b.size == blocks[i].size
    ensures SumSize(blocks[i := b][..|blocks| - 1]) == SumSize(blocks[..|blocks| - 1])
  {
    var last := |blocks| - 1;
    if i < last {
      SumSizeOfUpdate(blocks[..last], i, b);
      assert blocks[i := b][..last] == blocks[..last][i := b];
    } else {
      assert blocks[i := b][..last] == blocks[..last];
    }
  }

  lemma BumpKeepsRegions(blocks: seq<Block>, regions: seq<Region>, i: nat, b: Block, r: Region)
    requires RegionsOk(blocks, regions) && i < |blocks| && BlockOk(blocks[i])
    requires r == Region(blocks[i].owner, i, blocks[i].pos, r.size) && r.size % 8 == 0
    requires b == blocks[i].(pos := blocks[i].pos + r.size)
    ensures RegionsOk(blocks[i := b], regions + [r])
  {
    forall k | 0 <= k < |regions| ensures RegionOk(blocks[i := b], regions[k]) && Disjoint(regions[k], r) {
      assert RegionOk(blocks, regions[k]);
    }
  }

  lemma BumpBalances(blocks: seq<Block>, regions: seq<Region>, i: nat, b: Block, r: Region)
    requires i < |blocks| && b.pos == blocks[i].pos + r.size
    requires SumRegions(regions) == SumUsed(blocks)
    ensures SumRegions(regions + [r]) == SumUsed(blocks[i := b])
  {
    assert (regions + [r])[..|regions|] == regions;
    SumUsedOfUpdate(blocks, i, b);
  }

  lemma BumpKeepsWellUsed(blocks: seq<Block>, i: nat, b: Block, maxSize: nat)
    requires WellUsed(blocks) && Growing(blocks, maxSize) && i < |blocks|
    requires b.owner == blocks[i].owner && b.size == blocks[i].size && b.pos >= blocks[i].pos
    ensures WellUsed(blocks[i := b]) && Growing(blocks[i := b], maxSize)
  {
    var bumped := blocks[i := b];
    forall j, k | 0 <= j < k < |bumped| && NextOwn(bumped, j, k)
      ensures bumped[j].Capacity() < bumped[j].Used() + bumped[k].Used()
      ensures bumped[k].size >= 2 * bumped[j].size || bumped[k].size >= maxSize
    {
      forall m | j < m < k ensures blocks[m].owner != blocks[j].owner {
        assert bumped[m].owner == blocks[m].owner;
      }
      assert NextOwn(blocks, j, k);
    }
  }

  /** Publishing a block: the last one had no room, which is what the space bound needs. */
  lemma PublishKeeps(x: Arena, t: ThreadId, n: nat, last: Option<Pointer>, block: Block)
    requires ArenaOk(x) && n % 8 == 0 && x.lock == Some(t)
    requires NoRoom(x, t, n, last) && NewBlockOk(x, t, n, last, block)
    ensures ArenaOk(Published(x, t, block, n))
  {
    var r := Region(t, |x.blocks|, HEADER, n);
    PublishKeepsRegions(x.blocks, x.regions, block, r);
    PublishBalances(x.blocks, x.regions, block, r);
    PublishKeepsWellUsed(x, t, n, last, block);
    RebuiltIsOk(x, x.blocks + [block], x.regions + [r]);
  }

  lemma PublishKeepsRegions(blocks: seq<Block>, regions: seq<Region>, block: Block, r: Region)
    requires RegionsOk(blocks, regions)
    requires r == Region(block.owner, |blocks|, HEADER, r.size) && r.size % 8 == 0 && block.pos == HEADER + r.size
    ensures RegionsOk(blocks + [block], regions + [r])
  {
    forall k | 0 <= k < |regions| ensures RegionOk(blocks + [block], regions[k]) && Disjoint(regions[k], r) {
      assert RegionOk(blocks, regions[k]);
    }
  }

  lemma PublishBalances(blocks: seq<Block>, regions: seq<Region>, block: Block, r: Region)
    requires SumRegions(regions) == SumUsed(blocks) && r.size == block.Used()
    ensures SumRegions(regions + [r]) == SumUsed(blocks + [block])
  {
    assert (regions + [r])[..|regions|] == regions;
    assert (blocks + [block])[..|blocks|] == blocks;
  }

  lemma PublishEvolves(x: Arena, t: ThreadId, block: Block, n: nat)
    requires x.lock == Some(t) && block.owner == t
    ensures Evolves(x, Published(x, t, block, n), t)
  {
  }

  lemma PublishKeepsWellUsed(x: Arena, t: ThreadId, n: nat, last: Option<Pointer>, block: Block)
    requires WellUsed(x.blocks) && Growing(x.blocks, x.maxSize) && NoRoom(x, t, n, last) && NewBlockOk(x, t, n, last, block)
    ensures WellUsed(x.blocks + [block]) && Growing(x.blocks + [block], x.maxSize)
  {
    var blocks := x.blocks + [block];
    forall i, j | 0 <= i < j < |blocks| && NextOwn(blocks, i, j)
      ensures blocks[i].Capacity() < blocks[i].Used() + blocks[j].Used()
      ensures blocks[j].size >= 2 * blocks[i].size || blocks[j].size >= x.maxSize
    {
      forall m | i < m < j ensures x.blocks[m].owner != x.blocks[i].owner {
        assert blocks[m] == x.blocks[m];
      }
      if j < |x.blocks| {
        assert NextOwn(x.blocks, i, j);
      } else {
        assert last.Some? && i == last.value.index;
      }
    }
  }

  lemma HintKeeps(x: Arena, t: ThreadId, b: Pointer)
    requires ArenaOk(x) && Live(x, b)
    ensures ArenaOk(x.(hint := Some(b))) && Evolves(x, x.(hint := Some(b)), t)
  {
  }

  lemma LockKeeps(x: Arena, t: ThreadId)
    requires ArenaOk(x) && x.lock.None?
    ensures ArenaOk(x.(lock := Some(t))) && Evolves(x, x.(lock := Some(t)), t)
  {
  }

  /** The holder of the lock counts its block and lets go. */
  lemma UnlockKeeps(x: Arena, t: ThreadId, b: Pointer)
    requires ArenaOk(x) && Live(x, b) && SpaceOwed(x, t, b)
    ensures var y := x.(spaceAllocated := x.spaceAllocated + Deref(x, b).size, lock := None);
      ArenaOk(y) && Evolves(x, y, t)
  {
  }

  lemma NothingEvolves(x: Arena, t: ThreadId)
    ensures Evolves(x, x, t)
  {
  }

  lemma HintStepKeeps(x: Arena, t: ThreadId, l: Local)
    requires ArenaOk(x) && PcOk(x, t, l.pc) && (l.pc.CacheSet? || l.pc.ListPublished?)
    ensures ArenaOk(ArenaAfter(x, t, l)) && Evolves(x, ArenaAfter(x, t, l), t)
  {
    NothingEvolves(x, t);
    HintKeeps(x, t, l.pc.b);
  }

  lemma BumpStepKeeps(x: Arena, t: ThreadId, l: Local)
    requires ArenaOk(x) && PcOk(x, t, l.pc) && l.pc.BumpWrite?
    ensures ArenaOk(ArenaAfter(x, t, l)) && Evolves(x, ArenaAfter(x, t, l), t)
  {
    BumpKeeps(x, t, l.pc.b.index, l.pc.n);
    BumpEvolves(x, t, l.pc.b.index, l.pc.n);
  }

  lemma LockStepKeeps(x: Arena, t: ThreadId, l: Local)
    requires ArenaOk(x) && PcOk(x, t, l.pc) && l.pc.Created?
    ensures ArenaOk(ArenaAfter(x, t, l)) && Evolves(x, ArenaAfter(x, t, l), t)
  {
    NothingEvolves(x, t);
    if x.lock.None? { LockKeeps(x, t); }
  }

  lemma PublishStepKeeps(x: Arena, t: ThreadId, l: Local)
    requires ArenaOk(x) && PcOk(x, t, l.pc) && l.pc.Locked?
    ensures ArenaOk(ArenaAfter(x, t, l)) && Evolves(x, ArenaAfter(x, t, l), t)
  {
    PublishKeeps(x, t, l.pc.n, l.pc.last, l.pc.block);
    PublishEvolves(x, t, l.pc.block, l.pc.n);
  }

  lemma UnlockStepKeeps(x: Arena, t: ThreadId, l: Local)
    requires ArenaOk(x) && PcOk(x, t, l.pc) && l.pc.HintPublished?
    ensures ArenaOk(ArenaAfter(x, t, l)) && Evolves(x, ArenaAfter(x, t, l), t)
  {
    UnlockKeeps(x, t, l.pc.b);
  }

  predicate WritesArena(pc: Pc)
  {
    pc.CacheSet? || pc.ListPublished? || pc.BumpWrite? || pc.Created? || pc.Locked? || pc.HintPublished?
  }

  lemma OtherStepsOnlyRead(x: Arena, t: ThreadId, l: Local)
    requires !WritesArena(l.pc)
    ensures ArenaAfter(x, t, l) == x
  {
  }

  lemma StepKeepsArena(x: Arena, t: ThreadId, l: Local)
    requires ArenaOk(x) && PcOk(x, t, l.pc)
    ensures ArenaOk(ArenaAfter(x, t, l)) && Evolves(x, ArenaAfter(x, t, l), t)
  {
    if !WritesArena(l.pc) {
      OtherStepsOnlyRead(x, t, l);
      NothingEvolves(x, t);
    } else if l.pc.BumpWrite? {
      BumpStepKeeps(x, t, l);
    } else if l.pc.Created? {
      LockStepKeeps(x, t, l);
    } else if l.pc.Locked? {
      PublishStepKeeps(x, t, l);
    } else if l.pc.HintPublished? {
      UnlockStepKeeps(x, t, l);
    } else {
      HintStepKeeps(x, t, l);
    }
  }

  lemma FastPathKeepsPc(x: Arena, a: ArenaId, t: ThreadId, l: Local)
    requires ArenaOk(x) && PcOk(x, t, l.pc) && CacheOk(x, a, t, l)
    requires l.pc.Entered? || l.pc.HintLoad? || l.pc.HintCheck?
    ensures PcOk(x, t, LocalAfter(x, t, l).pc)
  {
  }

  lemma SearchKeepsPc(x: Arena, t: ThreadId, l: Local)
    requires ArenaOk(x) && PcOk(x, t, l.pc)
    requires l.pc.SlowStart? || l.pc.Walking? || l.pc.Found?
    ensures PcOk(x, t, LocalAfter(x, t, l).pc)
  {
  }

  lemma NewBlockKeepsPc(x: Arena, t: ThreadId, l: Local)
    requires ArenaOk(x) && PcOk(x, t, l.pc)
    requires l.pc.NotFound? || l.pc.Created?
    ensures PcOk(ArenaAfter(x, t, l), t, LocalAfter(x, t, l).pc)
  {
  }

  lemma PublishKeepsPc(x: Arena, t: ThreadId, l: Local)
    requires ArenaOk(x) && PcOk(x, t, l.pc)
    requires l.pc.Locked? || l.pc.ListPublished? || l.pc.HintPublished? || l.pc.Unlocked?
    ensures PcOk(ArenaAfter(x, t, l), t, LocalAfter(x, t, l).pc)
  {
    var y := ArenaAfter(x, t, l);
    assert y.blocks[..|x.blocks|] == x.blocks;
  }

  lemma StepKeepsPc(x: Arena, a: ArenaId, t: ThreadId, l: Local)
    requires ArenaOk(x) && PcOk(x, t, l.pc) && CacheOk(x, a, t, l)
    requires l.pc.Idle? || l.pc.a == a
    ensures PcOk(ArenaAfter(x, t, l), t, LocalAfter(x, t, l).pc)
  {
    if l.pc.Entered? || l.pc.HintLoad? || l.pc.HintCheck? {
      FastPathKeepsPc(x, a, t, l);
    } else if l.pc.SlowStart? || l.pc.Walking? || l.pc.Found? {
      SearchKeepsPc(x, t, l);
    } else if l.pc.NotFound? || l.pc.Created? {
      NewBlockKeepsPc(x, t, l);
    } else if HoldsLock(l.pc) || l.pc.Unlocked? {
      PublishKeepsPc(x, t, l);
    }
  }

  lemma StepKeepsCache(x: Arena, a: ArenaId, t: ThreadId, l: Local)
    requires ArenaOk(x) && PcOk(x, t, l.pc) && CacheOk(x, a, t, l)
    requires l.pc.Idle? || l.pc.a == a
    ensures CacheOk(ArenaAfter(x, t, l), a, t, LocalAfter(x, t, l))
  {
    if l.pc.Found? || l.pc.Unlocked? {
      SettingKeepsCache(x, a, t, l);
    } else if l.pc.Locked? {
      PublishingKeepsCache(x, a, t, l);
    } else if l.pc.BumpWrite? {
      BumpingKeepsCache(x, a, t, l);
    } else {
      OwnersStay(x, t, l);
    }
  }

  lemma SettingKeepsCache(x: Arena, a: ArenaId, t: ThreadId, l: Local)
    requires PcOk(x, t, l.pc) && CacheOk(x, a, t, l) && (l.pc.Found? || l.pc.Unlocked?)
    ensures CacheOk(ArenaAfter(x, t, l), a, t, LocalAfter(x, t, l))
  {
  }

  lemma PublishingKeepsCache(x: Arena, a: ArenaId, t: ThreadId, l: Local)
    requires PcOk(x, t, l.pc) && CacheOk(x, a, t, l) && l.pc.Locked? && l.pc.a == a
    ensures CacheOk(ArenaAfter(x, t, l), a, t, LocalAfter(x, t, l))
  {
  }

  lemma BumpingKeepsCache(x: Arena, a: ArenaId, t: ThreadId, l: Local)
    requires PcOk(x, t, l.pc) && CacheOk(x, a, t, l) && l.pc.BumpWrite?
    ensures CacheOk(ArenaAfter(x, t, l), a, t, LocalAfter(x, t, l))
  {
  }

  lemma OwnersStay(x: Arena, t: ThreadId, l: Local)
    requires !(l.pc.Found? || l.pc.Unlocked? || l.pc.Locked? || l.pc.BumpWrite?)
    ensures var y, l' := ArenaAfter(x, t, l), LocalAfter(x, t, l);
      y.blocks == x.blocks && y.life == x.life && l'.seen == l.seen && l'.cached == l.cached
      && (Publishing(l.pc) ==> Publishing(l'.pc) && l'.pc.a == l.pc.a)
  {
  }

  // ----- Runs ------------------------------------------------------------------

  datatype State = State(arenas: map<ArenaId, Arena>, threads: seq<Local>, nextLife: nat)

  datatype Action =
    | Init(t: ThreadId, a: ArenaId, initialBlock: Option<nat>, startSize: nat, maxSize: nat)
    | Allocate(t: ThreadId, a: ArenaId, n: nat)
    | Advance(t: ThreadId)
    | Reset(t: ThreadId, a: ArenaId)
    | Destroy(t: ThreadId, a: ArenaId)

  predicate Quiescent(s: State, a: ArenaId)
  {
    forall u :: 0 <= u < |s.threads| ==> s.threads[u].pc.Idle? || s.threads[u].pc.a != a
  }

  predicate Enabled(s: State, action: Action)
  {
    && action.t < |s.threads|
    && match action
       case Init(t, a, initialBlock, _, _) =>
         s.threads[t].pc.Idle? && a !in s.arenas && (initialBlock.Some? ==> initialBlock.value >= HEADER)
       case Allocate(t, a, _) => s.threads[t].pc.Idle? && a in s.arenas
       case Advance(t) => !s.threads[t].pc.Idle? && s.threads[t].pc.a in s.arenas
       case Reset(t, a) => a in s.arenas && s.threads[t].pc.Idle? && Quiescent(s, a)
       case Destroy(t, a) => a in s.arenas && s.threads[t].pc.Idle? && Quiescent(s, a)
  }

  /** An arena at the start of a life, with the user's block if there is one: the
      thread that starts the life owns it. */
  function NewLife(life: nat, t: ThreadId, firstBlock: Option<nat>, startSize: nat, maxSize: nat): Arena
  {
    match firstBlock
    case None => Arena(life, [], None, 0, None, true, startSize, maxSize, [], 0)
    case Some(size) =>
      var hint := if Block(t, size, HEADER).Avail() != 0 then Some(Pointer(life, 0)) else None;
      Arena(life, [Block(t, size, HEADER)], hint, size, None, false, startSize, maxSize, [], 0)
  }

  /** The user's block, which FreeBlocks keeps: the oldest. */
  function KeptBlock(x: Arena): Option<nat>
  {
    if x.ownsFirstBlock || x.blocks == [] then None else Some(x.blocks[0].size)
  }

  /** The thread that starts a life caches the user's block. */
  function CachedFirst(l: Local, life: nat, firstBlock: Option<nat>): Local
  {
    if firstBlock.None? then l else l.(seen := life, cached := Some(Pointer(life, 0)))
  }

  function After(s: State, action: Action): State
    requires Enabled(s, action)
  {
    var t := action.t;
    var l := s.threads[t];
    match action
    case Init(_, a, initialBlock, startSize, maxSize) =>
      State(s.arenas[a := NewLife(s.nextLife, t, initialBlock, startSize, maxSize)],
            s.threads[t := CachedFirst(l, s.nextLife, initialBlock)], s.nextLife + 1)
    case Allocate(_, a, n) =>
      s.(arenas := s.arenas[a := s.arenas[a].(requested := s.arenas[a].requested + Align(n))],
         threads := s.threads[t := l.(pc := Entered(a, Align(n)))])
    case Advance(_) =>
      var x := s.arenas[l.pc.a];
      s.(arenas := s.arenas[l.pc.a := ArenaAfter(x, t, l)], threads := s.threads[t := LocalAfter(x, t, l)])
    case Reset(_, a) =>
      var x := s.arenas[a];
      State(s.arenas[a := NewLife(s.nextLife, t, KeptBlock(x), x.startSize, x.maxSize)],
            s.threads[t := CachedFirst(l, s.nextLife, KeptBlock(x))], s.nextLife + 1)
    case Destroy(_, a) =>
      var x := s.arenas[a];
      s.(arenas := s.arenas - {a}, threads := s.threads[t := CachedFirst(l, x.life, KeptBlock(x))])
  }

  lemma KeptBlockFits(x: Arena)
    requires ArenaOk(x)
    ensures KeptBlock(x).Some? ==> KeptBlock(x).value >= HEADER
  {
    if x.blocks != [] { assert BlockOk(x.blocks[0]); }
  }

  ghost predicate LockOk(s: State, a: ArenaId)
    requires a in s.arenas
  {
    var lock := s.arenas[a].lock;
    lock.Some? ==>
      lock.value < |s.threads| && HoldsLock(s.threads[lock.value].pc) && s.threads[lock.value].pc.a == a
  }

  ghost predicate ThreadOk(s: State, t: ThreadId)
    requires t < |s.threads|
  {
    var l := s.threads[t];
    && l.seen < s.nextLife
    && (l.pc.Idle? || (l.pc.a in s.arenas && PcOk(s.arenas[l.pc.a], t, l.pc)))
    && (forall a :: a in s.arenas ==> CacheOk(s.arenas[a], a, t, l))
  }

  ghost predicate Inv(s: State)
  {
    && (forall a :: a in s.arenas ==> ArenaOk(s.arenas[a]) && s.arenas[a].life < s.nextLife && LockOk(s, a))
    && (forall a, b :: a in s.arenas && b in s.arenas && a != b ==> s.arenas[a].life != s.arenas[b].life)
    && (forall t :: 0 <= t < |s.threads| ==> ThreadOk(s, t))
  }

  /** No arenas, all threads idle, with caches as the program starts them. */
  ghost predicate Start(s: State)
  {
    s.arenas == map[] && forall t :: 0 <= t < |s.threads| ==> s.threads[t] == Local(-1, None, Idle)
  }

  lemma StartInv(s: State)
    requires Start(s)
    ensures Inv(s)
  {
  }

  lemma OtherThreadOk(s: State, t: ThreadId, u: ThreadId)
    requires Inv(s) && Enabled(s, Advance(t)) && u < |s.threads| && u != t
    ensures ThreadOk(After(s, Advance(t)), u)
  {
    var s' := After(s, Advance(t));
    var a := s.threads[t].pc.a;
    assert ThreadOk(s, t) && ThreadOk(s, u);
    StepKeepsArena(s.arenas[a], t, s.threads[t]);
    OthersKeepCache(s.arenas[a], s'.arenas[a], a, t, u, s.threads[u]);
    if !s.threads[u].pc.Idle? && s.threads[u].pc.a == a {
      OthersKeepPc(s.arenas[a], s'.arenas[a], t, u, s.threads[u].pc);
    }
  }

  lemma OwnThreadOk(s: State, t: ThreadId)
    requires Inv(s) && Enabled(s, Advance(t))
    ensures ThreadOk(After(s, Advance(t)), t)
  {
    var l := s.threads[t];
    var a := l.pc.a;
    assert ThreadOk(s, t);
    StepKeepsPc(s.arenas[a], a, t, l);
    StepKeepsCache(s.arenas[a], a, t, l);
    CacheIsOldOrCurrent(s.arenas[a], a, t, l);
    var s' := After(s, Advance(t));
    forall b | b in s'.arenas ensures CacheOk(s'.arenas[b], b, t, s'.threads[t]) {
      if b != a { CacheElsewhere(s.arenas[b], b, a, s.arenas[a].life, t, l, s'.threads[t]); }
    }
  }

  /** What a step in one arena does to the cache is of no account in another. */
  lemma CacheElsewhere(z: Arena, b: ArenaId, a: ArenaId, life: nat, t: ThreadId, l: Local, l': Local)
    requires CacheOk(z, b, t, l) && a != b && life != z.life
    requires !l.pc.Idle? && l.pc.a == a && (l'.pc.Idle? || l'.pc.a == a)
    requires (l'.seen == l.seen && l'.cached == l.cached) || l'.seen == life
    ensures CacheOk(z, b, t, l')
  {
  }

  lemma CacheIsOldOrCurrent(x: Arena, a: ArenaId, t: ThreadId, l: Local)
    requires l.pc.Idle? || l.pc.a == a
    ensures var l' := LocalAfter(x, t, l);
      (l'.pc.Idle? || l'.pc.a == a) && ((l'.seen == l.seen && l'.cached == l.cached) || l'.seen == x.life)
  {
  }

  lemma LockMoves(x: Arena, t: ThreadId, l: Local)
    requires PcOk(x, t, l.pc) && !l.pc.Idle?
    ensures var y, l' := ArenaAfter(x, t, l), LocalAfter(x, t, l);
      && (y.lock == x.lock || y.lock.None? || (y.lock == Some(t) && l'.pc.Locked?))
      && (HoldsLock(l.pc) ==> HoldsLock(l'.pc) || y.lock.None?)
      && (l'.pc.Idle? || l'.pc.a == l.pc.a)
  {
  }

  lemma LocksStayOk(s: State, t: ThreadId, b: ArenaId)
    requires Enabled(s, Advance(t)) && b in s.arenas && LockOk(s, b)
    requires PcOk(s.arenas[s.threads[t].pc.a], t, s.threads[t].pc)
    ensures LockOk(After(s, Advance(t)), b)
  {
    LockMoves(s.arenas[s.threads[t].pc.a], t, s.threads[t]);
  }

  lemma AdvanceKeepsInv(s: State, t: ThreadId)
    requires Inv(s) && Enabled(s, Advance(t))
    ensures Inv(After(s, Advance(t)))
  {
    var s' := After(s, Advance(t));
    assert ThreadOk(s, t);
    StepKeepsArena(s.arenas[s.threads[t].pc.a], t, s.threads[t]);
    forall u | 0 <= u < |s'.threads| ensures ThreadOk(s', u) {
      if u == t { OwnThreadOk(s, t); } else { OtherThreadOk(s, t, u); }
    }
    forall b | b in s'.arenas ensures LockOk(s', b) {
      LocksStayOk(s, t, b);
    }
  }

  /** The record of requests is only a record. */
  lemma RequestsDoNotMatter(x: Arena, y: Arena)
    requires y == x.(requested := y.requested) && ArenaOk(x)
    ensures ArenaOk(y)
  {
  }

  lemma RequestsKeepPc(x: Arena, y: Arena, u: ThreadId, pc: Pc)
    requires y == x.(requested := y.requested) && PcOk(x, u, pc)
    ensures PcOk(y, u, pc)
  {
  }

  lemma RequestsKeepCache(x: Arena, y: Arena, a: ArenaId, u: ThreadId, l: Local)
    requires y == x.(requested := y.requested) && CacheOk(x, a, u, l)
    ensures CacheOk(y, a, u, l)
  {
  }

  lemma AllocateKeepsThread(s: State, t: ThreadId, a: ArenaId, n: nat, u: ThreadId)
    requires Enabled(s, Allocate(t, a, n)) && u < |s.threads| && ThreadOk(s, u)
    ensures ThreadOk(After(s, Allocate(t, a, n)), u)
  {
    var s' := After(s, Allocate(t, a, n));
    RequestsKeepCache(s.arenas[a], s'.arenas[a], a, u, s.threads[u]);
    if !s.threads[u].pc.Idle? && s.threads[u].pc.a == a {
      RequestsKeepPc(s.arenas[a], s'.arenas[a], u, s.threads[u].pc);
    }
  }

  lemma AllocateKeepsInv(s: State, t: ThreadId, a: ArenaId, n: nat)
    requires Inv(s) && Enabled(s, Allocate(t, a, n))
    ensures Inv(After(s, Allocate(t, a, n)))
  {
    var s' := After(s, Allocate(t, a, n));
    RequestsDoNotMatter(s.arenas[a], s'.arenas[a]);
    forall u | 0 <= u < |s'.threads| ensures ThreadOk(s', u) {
      assert ThreadOk(s, u);
      AllocateKeepsThread(s, t, a, n, u);
    }
    forall b | b in s'.arenas ensures LockOk(s', b) {
      assert LockOk(s, b);
    }
  }

  lemma NewLifeOk(life: nat, t: ThreadId, firstBlock: Option<nat>, startSize: nat, maxSize: nat)
    requires firstBlock.Some? ==> firstBlock.value >= HEADER
    ensures ArenaOk(NewLife(life, t, firstBlock, startSize, maxSize))
  {
    if firstBlock.Some? {
      var b := Block(t, firstBlock.value, HEADER);
      assert [b][..0] == [];
      assert SumUsed([]) == 0 && SumUsed([b]) == 0;
      assert SumSize([]) == 0 && SumSize([b]) == b.size;
    }
  }

  /** A new life has an id no thread has seen, so no cache matches it, but for the
      thread that starts it on the user's block. */
  lemma NewLifeKeepsInv(s: State, s': State, t: ThreadId, a: ArenaId, firstBlock: Option<nat>, startSize: nat, maxSize: nat)
    requires Inv(s) && t < |s.threads| && s.threads[t].pc.Idle? && Quiescent(s, a)
    requires firstBlock.Some? ==> firstBlock.value >= HEADER
    requires s' == State(s.arenas[a := NewLife(s.nextLife, t, firstBlock, startSize, maxSize)],
                         s.threads[t := CachedFirst(s.threads[t], s.nextLife, firstBlock)], s.nextLife + 1)
    ensures Inv(s')
  {
    NewLifeOk(s.nextLife, t, firstBlock, startSize, maxSize);
    forall u | 0 <= u < |s'.threads| ensures ThreadOk(s', u) {
      NewLifeKeepsThread(s, s', t, a, firstBlock, startSize, maxSize, u);
    }
    forall b | b in s'.arenas ensures LockOk(s', b) {
      if b != a { assert LockOk(s, b); }
    }
  }

  lemma NewLifeKeepsThread(s: State, s': State, t: ThreadId, a: ArenaId, firstBlock: Option<nat>, startSize: nat, maxSize: nat,
                           u: ThreadId)
    requires u < |s.threads| && ThreadOk(s, u) && t < |s.threads| && s.threads[t].pc.Idle? && Quiescent(s, a)
    requires forall b :: b in s.arenas ==> s.arenas[b].life < s.nextLife
    requires s' == State(s.arenas[a := NewLife(s.nextLife, t, firstBlock, startSize, maxSize)],
                         s.threads[t := CachedFirst(s.threads[t], s.nextLife, firstBlock)], s.nextLife + 1)
    ensures ThreadOk(s', u)
  {
  }

  lemma DestroyKeepsInv(s: State, t: ThreadId, a: ArenaId)
    requires Inv(s) && Enabled(s, Destroy(t, a))
    ensures Inv(After(s, Destroy(t, a)))
  {
    var s' := After(s, Destroy(t, a));
    forall u | 0 <= u < |s'.threads| ensures ThreadOk(s', u) {
      assert ThreadOk(s, u);
    }
    forall b | b in s'.arenas ensures LockOk(s', b) {
      assert LockOk(s, b);
    }
  }

  lemma UnknownArenaIsQuiescent(s: State, a: ArenaId)
    requires Inv(s) && a !in s.arenas
    ensures Quiescent(s, a)
  {
    forall u | 0 <= u < |s.threads| ensures s.threads[u].pc.Idle? || s.threads[u].pc.a != a {
      assert ThreadOk(s, u);
    }
  }

  lemma StepKeepsInv(s: State, action: Action)
    requires Inv(s) && Enabled(s, action)
    ensures Inv(After(s, action))
  {
    var t := action.t;
    match action
    case Advance(_) => AdvanceKeepsInv(s, t);
    case Allocate(_, a, n) => AllocateKeepsInv(s, t, a, n);
    case Init(_, a, initialBlock, startSize, maxSize) =>
      UnknownArenaIsQuiescent(s, a);
      NewLifeKeepsInv(s, After(s, action), t, a, initialBlock, startSize, maxSize);
    case Reset(_, a) =>
      var x := s.arenas[a];
      KeptBlockFits(x);
      NewLifeKeepsInv(s, After(s, action), t, a, KeptBlock(x), x.startSize, x.maxSize);
    case Destroy(_, a) => DestroyKeepsInv(s, t, a);
  }

  predicate EnabledRun(s: State, run: seq<Action>)
    decreases run
  {
    run == [] || (Enabled(s, run[0]) && EnabledRun(After(s, run[0]), run[1..]))
  }

  function Run(s: State, run: seq<Action>): State
    requires EnabledRun(s, run)
    decreases run
  {
    if run == [] then s else Run(After(s, run[0]), run[1..])
  }

  lemma {:induction false} RunKeepsInv(s: State, run: seq<Action>)
    requires Inv(s) && EnabledRun(s, run)
    ensures Inv(Run(s, run))
    decreases run
  {
    if run != [] {
      StepKeepsInv(s, run[0]);
      RunKeepsInv(After(s, run[0]), run[1..]);
    }
  }

  // ----- What every run ensures --------------------------------------------------

  /** The regions handed out in the present life of any arena are pairwise disjoint, and
      each lies in a block of the thread that got it, past the header, at a multiple
      of 8. */
  lemma RegionsAreApart(start: State, run: seq<Action>, a: ArenaId)
    requires Start(start) && EnabledRun(start, run) && a in Run(start, run).arenas
    ensures var x := Run(start, run).arenas[a];
      && (forall i, j :: 0 <= i < j < |x.regions| ==> Disjoint(x.regions[i], x.regions[j]))
      && (forall i :: 0 <= i < |x.regions| ==> RegionOk(x.blocks, x.regions[i]))
      && (forall i :: 0 <= i < |x.blocks| ==> BlockOk(x.blocks[i]))
  {
    StartInv(start);
    RunKeepsInv(start, run);
  }

  /** FindBlock, done at once: the newest block that the thread owns. */
  function FindBlock(x: Arena, t: ThreadId, k: nat): Option<Pointer>
    requires k <= |x.blocks|
  {
    if k == 0 then None
    else if x.blocks[k - 1].owner == t then Some(Pointer(x.life, k - 1))
    else FindBlock(x, t, k - 1)
  }

  lemma {:induction false} FindBlockIsNewest(x: Arena, t: ThreadId, k: nat, p: Pointer)
    requires IsNewest(x, t, p) && p.index < k <= |x.blocks|
    ensures FindBlock(x, t, k) == Some(p)
  {
    if p.index < k - 1 { FindBlockIsNewest(x, t, k - 1, p); }
  }

  /** A cache whose id matches an arena holds a live block of it, and, but while its
      thread is publishing one there, exactly the block that FindBlock would return. */
  lemma CacheIsFindBlock(start: State, run: seq<Action>, a: ArenaId, t: ThreadId)
    requires Start(start) && EnabledRun(start, run) && a in Run(start, run).arenas && t < |start.threads|
    ensures |Run(start, run).threads| == |start.threads|
    ensures var x, l := Run(start, run).arenas[a], Run(start, run).threads[t];
      l.seen == x.life && l.cached.Some? ==>
        Live(x, l.cached.value)
        && (FindBlock(x, t, |x.blocks|) == l.cached <==> !(Publishing(l.pc) && l.pc.a == a))
  {
    StartInv(start);
    RunKeepsInv(start, run);
    RunKeepsThreads(start, run);
    var x, l := Run(start, run).arenas[a], Run(start, run).threads[t];
    assert ThreadOk(Run(start, run), t);
    if l.seen == x.life && l.cached.Some? {
      FindBlockIsNewest(x, t, |x.blocks|, if Publishing(l.pc) && l.pc.a == a then l.pc.b else l.cached.value);
    }
  }

  lemma {:induction false} RunKeepsThreads(s: State, run: seq<Action>)
    requires EnabledRun(s, run)
    ensures |Run(s, run).threads| == |s.threads|
    decreases run
  {
    if run != [] { RunKeepsThreads(After(s, run[0]), run[1..]); }
  }

  /** No step follows a pointer to freed memory. */
  lemma NoStepDangles(start: State, run: seq<Action>, t: ThreadId)
    requires Start(start) && EnabledRun(start, run) && Enabled(Run(start, run), Advance(t))
    ensures var l := Run(start, run).threads[t];
            var x := Run(start, run).arenas[l.pc.a];
            Followed(x, l).Some? ==> Live(x, Followed(x, l).value)
  {
    StartInv(start);
    RunKeepsInv(start, run);
    var s := Run(start, run);
    assert ThreadOk(s, t);
    FollowsLive(s.arenas[s.threads[t].pc.a], s.threads[t].pc.a, t, s.threads[t]);
  }

  lemma FollowsLive(x: Arena, a: ArenaId, t: ThreadId, l: Local)
    requires PcOk(x, t, l.pc) && CacheOk(x, a, t, l)
    ensures Followed(x, l).Some? ==> Live(x, Followed(x, l).value)
  {
  }

  predicate Bumping(s: State, t: ThreadId)
  {
    t < |s.threads| && (s.threads[t].pc.BumpRead? || s.threads[t].pc.BumpWrite?)
  }

  lemma BumperOwnsBlock(s: State, t: ThreadId)
    requires Inv(s) && Bumping(s, t)
    ensures var pc := s.threads[t].pc;
      pc.a in s.arenas && Live(s.arenas[pc.a], pc.b) && s.arenas[pc.a].blocks[pc.b.index].owner == t
  {
    assert ThreadOk(s, t);
  }

  /** Two threads are never about to bump the same block, although no lock is held. */
  lemma BumpsNeverRace(start: State, run: seq<Action>, t: ThreadId, u: ThreadId)
    requires Start(start) && EnabledRun(start, run)
    requires Bumping(Run(start, run), t) && Bumping(Run(start, run), u) && t != u
    ensures Run(start, run).threads[t].pc.b != Run(start, run).threads[u].pc.b
  {
    StartInv(start);
    RunKeepsInv(start, run);
    BumperOwnsBlock(Run(start, run), t);
    BumperOwnsBlock(Run(start, run), u);
  }

  // ----- Space -----------------------------------------------------------------

  /** What a thread has asked of the arena and not been given yet. */
  function Owing(l: Local, a: ArenaId): nat
  {
    if l.pc.Idle? || l.pc.a != a || Publishing(l.pc) then 0 else l.pc.n
  }

  function SumOwing(threads: seq<Local>, a: ArenaId): nat
  {
    if threads == [] then 0 else SumOwing(threads[..|threads| - 1], a) + Owing(threads[|threads| - 1], a)
  }

  lemma {:induction false} SumOwingOfUpdate(threads: seq<Local>, a: ArenaId, t: nat, l: Local)
    requires t < |threads|
    ensures SumOwing(threads[t := l], a) == SumOwing(threads, a) - Owing(threads[t], a) + Owing(l, a)
  {
    var last := |threads| - 1;
    if t < last {
      assert threads[t := l][..last] == threads[..last][t := l];
      SumOwingOfUpdate(threads[..last], a, t, l);
    } else {
      assert threads[t := l][..last] == threads[..last];
    }
  }

  lemma {:induction false} QuiescentOwesNothing(threads: seq<Local>, a: ArenaId)
    requires forall t :: 0 <= t < |threads| ==> threads[t].pc.Idle? || threads[t].pc.a != a
    ensures SumOwing(threads, a) == 0
  {
    if threads != [] { QuiescentOwesNothing(threads[..|threads| - 1], a); }
  }

  /** Every request is handed out, once, or still owed. */
  ghost predicate ConservedAt(s: State, a: ArenaId)
    requires a in s.arenas
  {
    s.arenas[a].requested == SumRegions(s.arenas[a].regions) + SumOwing(s.threads, a)
  }

  ghost predicate Conserved(s: State)
  {
    forall a :: a in s.arenas ==> ConservedAt(s, a)
  }

  /** A step that hands out a region is no longer owed it; no other step hands out any. */
  lemma AdvanceConserves(x: Arena, t: ThreadId, l: Local)
    requires !l.pc.Idle? && PcOk(x, t, l.pc)
    ensures var y, l' := ArenaAfter(x, t, l), LocalAfter(x, t, l);
      && y.requested == x.requested
      && SumRegions(y.regions) + Owing(l', l.pc.a) == SumRegions(x.regions) + Owing(l, l.pc.a)
      && forall b :: b != l.pc.a ==> Owing(l', b) == 0
  {
    CacheIsOldOrCurrent(x, l.pc.a, t, l);
    if l.pc.BumpWrite? || l.pc.Locked? {
      HandsOut(x, t, l);
    } else {
      HandsOutNothing(x, t, l);
    }
  }

  lemma HandsOut(x: Arena, t: ThreadId, l: Local)
    requires PcOk(x, t, l.pc) && (l.pc.BumpWrite? || l.pc.Locked?)
    ensures var y := ArenaAfter(x, t, l);
      && y.requested == x.requested
      && SumRegions(y.regions) == SumRegions(x.regions) + l.pc.n
      && Owing(LocalAfter(x, t, l), l.pc.a) == 0
  {
    var y := ArenaAfter(x, t, l);
    assert y.regions[..|x.regions|] == x.regions;
  }

  lemma HandsOutNothing(x: Arena, t: ThreadId, l: Local)
    requires !l.pc.Idle? && !l.pc.BumpWrite? && !l.pc.Locked?
    ensures var y := ArenaAfter(x, t, l);
      && y.requested == x.requested && y.regions == x.regions
      && Owing(LocalAfter(x, t, l), l.pc.a) == Owing(l, l.pc.a)
  {
  }

  lemma AdvanceConservesAt(s: State, t: ThreadId, a: ArenaId)
    requires Enabled(s, Advance(t)) && ThreadOk(s, t) && a in s.arenas && ConservedAt(s, a)
    ensures ConservedAt(After(s, Advance(t)), a)
  {
    SumOwingOfUpdate(s.threads, a, t, After(s, Advance(t)).threads[t]);
    AdvanceConserves(s.arenas[s.threads[t].pc.a], t, s.threads[t]);
  }

  lemma AllocateConservesAt(s: State, t: ThreadId, b: ArenaId, n: nat, a: ArenaId)
    requires Enabled(s, Allocate(t, b, n)) && a in s.arenas && ConservedAt(s, a)
    ensures ConservedAt(After(s, Allocate(t, b, n)), a)
  {
    SumOwingOfUpdate(s.threads, a, t, After(s, Allocate(t, b, n)).threads[t]);
  }

  /** An idle thread owes nothing, and no thread owes a new life anything. */
  lemma IdleStepConservesAt(s: State, s': State, t: ThreadId, a: ArenaId)
    requires t < |s.threads| && s.threads[t].pc.Idle? && a in s'.arenas
    requires |s'.threads| == |s.threads| && s'.threads == s.threads[t := s'.threads[t]] && s'.threads[t].pc.Idle?
    requires (a in s.arenas && ConservedAt(s, a) && s'.arenas[a] == s.arenas[a])
          || (Quiescent(s, a) && s'.arenas[a].regions == [] && s'.arenas[a].requested == 0)
    ensures ConservedAt(s', a)
  {
    SumOwingOfUpdate(s.threads, a, t, s'.threads[t]);
    if Quiescent(s, a) { QuiescentOwesNothing(s.threads, a); }
  }

  lemma StepConserves(s: State, action: Action)
    requires Inv(s) && Conserved(s) && Enabled(s, action)
    ensures Conserved(After(s, action))
  {
    var t := action.t;
    var s' := After(s, action);
    forall a | a in s'.arenas ensures ConservedAt(s', a) {
      match action
      case Advance(_) =>
        assert ThreadOk(s, t);
        AdvanceConservesAt(s, t, a);
      case Allocate(_, b, n) => AllocateConservesAt(s, t, b, n, a);
      case Init(_, b, _, _, _) =>
        if a == b { UnknownArenaIsQuiescent(s, a); }
        IdleStepConservesAt(s, s', t, a);
      case Reset(_, b) => IdleStepConservesAt(s, s', t, a);
      case Destroy(_, _) => IdleStepConservesAt(s, s', t, a);
    }
  }

  lemma {:induction false} RunConserves(s: State, run: seq<Action>)
    requires Inv(s) && Conserved(s) && EnabledRun(s, run)
    ensures Conserved(Run(s, run))
    decreases run
  {
    if run != [] {
      StepKeepsInv(s, run[0]);
      StepConserves(s, run[0]);
      RunConserves(After(s, run[0]), run[1..]);
    }
  }

  /** At quiescence the space used is the sum of the aligned requests, and the space
      allocated is the sum of the block sizes. */
  lemma QuiescentSpace(start: State, run: seq<Action>, a: ArenaId)
    requires Start(start) && EnabledRun(start, run)
    requires a in Run(start, run).arenas && Quiescent(Run(start, run), a)
    ensures var x := Run(start, run).arenas[a];
      SumUsed(x.blocks) == x.requested && x.spaceAllocated == SumSize(x.blocks)
  {
    StartInv(start);
    RunKeepsInv(start, run);
    RunConserves(start, run);
    var s := Run(start, run);
    QuiescentOwesNothing(s.threads, a);
    assert LockOk(s, a);
  }

  // ----- The space bound --------------------------------------------------------

  /** Totals over the blocks of one thread. */
  function Capacity(blocks: seq<Block>, t: ThreadId): int
  {
    if blocks == [] then 0
    else
      var last := blocks[|blocks| - 1];
      Capacity(blocks[..|blocks| - 1], t) + if last.owner == t then last.Capacity() else 0
  }

  function Used(blocks: seq<Block>, t: ThreadId): int
  {
    if blocks == [] then 0
    else
      var last := blocks[|blocks| - 1];
      Used(blocks[..|blocks| - 1], t) + if last.owner == t then last.Used() else 0
  }

  /** The thread's newest block, or -1. */
  function Newest(blocks: seq<Block>, t: ThreadId): (i: int)
    ensures -1 <= i < |blocks|
    ensures i >= 0 ==> blocks[i].owner == t
    ensures forall k :: i < k < |blocks| ==> blocks[k].owner != t
  {
    if blocks == [] then -1
    else if blocks[|blocks| - 1].owner == t then |blocks| - 1
    else Newest(blocks[..|blocks| - 1], t)
  }

  lemma PrefixIsWellUsed(blocks: seq<Block>)
    requires WellUsed(blocks) && blocks != []
    ensures WellUsed(blocks[..|blocks| - 1])
  {
    var prefix := blocks[..|blocks| - 1];
    forall i, j | 0 <= i < j < |prefix| && NextOwn(prefix, i, j)
      ensures prefix[i].Capacity() < prefix[i].Used() + prefix[j].Used()
    {
      assert NextOwn(blocks, i, j);
    }
  }

  /** A thread wastes little: all its blocks but the newest hold less than twice what
      it used. */
  lemma {:induction false} SpaceBound(blocks: seq<Block>, t: ThreadId)
    requires WellUsed(blocks) && (forall i :: 0 <= i < |blocks| ==> BlockOk(blocks[i])) && Newest(blocks, t) >= 0
    ensures var newest := Newest(blocks, t);
      && Capacity(blocks, t) - blocks[newest].Capacity() + blocks[newest].Used() <= 2 * Used(blocks, t)
      && (Newest(blocks[..newest], t) >= 0 ==> Capacity(blocks, t) - blocks[newest].Capacity() < 2 * Used(blocks, t))
  {
    var last := |blocks| - 1;
    var prefix := blocks[..last];
    PrefixIsWellUsed(blocks);
    var before := Newest(prefix, t);
    if before >= 0 {
      SpaceBound(prefix, t);
      if blocks[last].owner == t {
        assert NextOwn(blocks, before, last);
      } else {
        assert blocks[..before] == prefix[..before];
      }
    } else {
      NoBlocksNoTotals(prefix, t);
    }
  }

  lemma {:induction false} NoBlocksNoTotals(blocks: seq<Block>, t: ThreadId)
    requires Newest(blocks, t) < 0
    ensures Capacity(blocks, t) == 0 && Used(blocks, t) == 0
  {
    if blocks != [] { NoBlocksNoTotals(blocks[..|blocks| - 1], t); }
  }

  /** The bound, for every run: with two blocks or more, a thread's blocks other than
      its newest hold less than twice the bytes it used. */
  lemma WasteIsBounded(start: State, run: seq<Action>, a: ArenaId, t: ThreadId)
    requires Start(start) && EnabledRun(start, run) && a in Run(start, run).arenas
    requires var blocks := Run(start, run).arenas[a].blocks;
      Newest(blocks, t) >= 0 && Newest(blocks[..Newest(blocks, t)], t) >= 0
    ensures var blocks := Run(start, run).arenas[a].blocks;
      Capacity(blocks, t) - blocks[Newest(blocks, t)].Capacity() < 2 * Used(blocks, t)
  {
    StartInv(start);
    RunKeepsInv(start, run);
    SpaceBound(Run(start, run).arenas[a].blocks, t);
  }

  // ----- Growth ----------------------------------------------------------------

  function CountOwned(blocks: seq<Block>, t: ThreadId): nat
  {
    if blocks == [] then 0
    else CountOwned(blocks[..|blocks| - 1], t) + if blocks[|blocks| - 1].owner == t then 1 else 0
  }

  lemma PrefixIsGrowing(blocks: seq<Block>, maxSize: nat)
    requires Growing(blocks, maxSize) && blocks != []
    ensures Growing(blocks[..|blocks| - 1], maxSize)
  {
    var prefix := blocks[..|blocks| - 1];
    forall i, j | 0 <= i < j < |prefix| && NextOwn(prefix, i, j)
      ensures prefix[j].size >= 2 * prefix[i].size || prefix[j].size >= maxSize
    {
      assert NextOwn(blocks, i, j);
    }
  }

  /** The thread's newest block is exponentially large in the number of its blocks, up
      to the limit: each is at least twice the one before it or at the limit. */
  lemma {:induction false} BlocksDouble(blocks: seq<Block>, t: ThreadId, maxSize: nat)
    requires Growing(blocks, maxSize) && (forall i :: 0 <= i < |blocks| ==> BlockOk(blocks[i])) && Newest(blocks, t) >= 0
    ensures CountOwned(blocks, t) >= 1
    ensures var size := blocks[Newest(blocks, t)].size;
      size >= Pow2(CountOwned(blocks, t) - 1) * HEADER || size >= maxSize
  {
    var last := |blocks| - 1;
    var prefix := blocks[..last];
    PrefixIsGrowing(blocks, maxSize);
    var before := Newest(prefix, t);
    if before >= 0 {
      BlocksDouble(prefix, t, maxSize);
      if blocks[last].owner == t {
        assert NextOwn(blocks, before, last);
        assert blocks[before] == prefix[before];
      }
    } else {
      NoBlocksNoCount(prefix, t);
    }
  }

  lemma {:induction false} NoBlocksNoCount(blocks: seq<Block>, t: ThreadId)
    requires Newest(blocks, t) < 0
    ensures CountOwned(blocks, t) == 0
  {
    if blocks != [] { NoBlocksNoCount(blocks[..|blocks| - 1], t); }
  }

  lemma GrowthOfRun(start: State, run: seq<Action>, a: ArenaId, t: ThreadId)
    requires Start(start) && EnabledRun(start, run) && a in Run(start, run).arenas
    requires Newest(Run(start, run).arenas[a].blocks, t) >= 0
    ensures var x := Run(start, run).arenas[a];
      var size := x.blocks[Newest(x.blocks, t)].size;
      CountOwned(x.blocks, t) >= 1 && (size >= Pow2(CountOwned(x.blocks, t) - 1) * HEADER || size >= x.maxSize)
  {
    StartInv(start);
    RunKeepsInv(start, run);
    BlocksDouble(Run(start, run).arenas[a].blocks, t, Run(start, run).arenas[a].maxSize);
  }

  // ----- Sizes -----------------------------------------------------------------

  /** The block holds the request that started it and nothing more. */
  ghost predicate ExactFit(blocks: seq<Block>, regions: seq<Region>, j: nat)
    requires j < |blocks|
  {
    exists r :: r in regions && r.block == j && r.start == HEADER && blocks[j].size == HEADER + r.size
  }

  ghost predicate FirstOwn(blocks: seq<Block>, j: nat)
    requires j < |blocks|
  {
    forall i :: 0 <= i < j ==> blocks[i].owner != blocks[j].owner
  }

  ghost predicate AtMostDoubled(blocks: seq<Block>, j: nat, maxSize: nat)
    requires j < |blocks|
  {
    exists i :: 0 <= i < j && NextOwn(blocks, i, j) && blocks[j].size <= maxSize && blocks[j].size <= 2 * blocks[i].size
  }

  /** Blocks are larger than the start size, the limit and the doubled size allow only
      when a single request calls for it. The user's block is before `from`. */
  ghost predicate Capped(blocks: seq<Block>, regions: seq<Region>, startSize: nat, maxSize: nat, from: nat)
  {
    forall j :: from <= j < |blocks| ==> BlockCapped(blocks, regions, startSize, maxSize, j)
  }

  ghost predicate BlockCapped(blocks: seq<Block>, regions: seq<Region>, startSize: nat, maxSize: nat, j: nat)
    requires j < |blocks|
  {
    && (FirstOwn(blocks, j) ==> blocks[j].size >= startSize)
    && (ExactFit(blocks, regions, j) || AtMostDoubled(blocks, j, maxSize)
        || (FirstOwn(blocks, j) && blocks[j].size == startSize))
  }

  function OwnFrom(x: Arena): nat
  {
    if x.ownsFirstBlock then 0 else 1
  }

  ghost predicate Sized(x: Arena)
  {
    Capped(x.blocks, x.regions, x.startSize, x.maxSize, OwnFrom(x))
  }

  /** A block stays capped when regions are added, other blocks are published and
      positions move. */
  lemma CappedStays(blocks: seq<Block>, blocks': seq<Block>, regions: seq<Region>, r: Region,
                    startSize: nat, maxSize: nat, j: nat)
    requires j < |blocks| <= |blocks'| && BlockCapped(blocks, regions, startSize, maxSize, j)
    requires forall k :: 0 <= k < |blocks| ==> blocks'[k].owner == blocks[k].owner && blocks'[k].size == blocks[k].size
    ensures BlockCapped(blocks', regions + [r], startSize, maxSize, j)
  {
    if ExactFit(blocks, regions, j) {
      var q :| q in regions && q.block == j && q.start == HEADER && blocks[j].size == HEADER + q.size;
      assert q in regions + [r];
    } else if AtMostDoubled(blocks, j, maxSize) {
      var i :| 0 <= i < j && NextOwn(blocks, i, j) && blocks[j].size <= maxSize && blocks[j].size <= 2 * blocks[i].size;
      assert NextOwn(blocks', i, j);
    }
  }

  lemma BumpKeepsCapped(blocks: seq<Block>, regions: seq<Region>, i: nat, b: Block, r: Region,
                        startSize: nat, maxSize: nat, from: nat)
    requires Capped(blocks, regions, startSize, maxSize, from) && i < |blocks|
    requires b.owner == blocks[i].owner && b.size == blocks[i].size
    ensures Capped(blocks[i := b], regions + [r], startSize, maxSize, from)
  {
    var blocks', regions' := blocks[i := b], regions + [r];
    forall j | from <= j < |blocks| ensures BlockCapped(blocks', regions', startSize, maxSize, j) {
      CappedStays(blocks, blocks', regions, r, startSize, maxSize, j);
    }
  }

  lemma PublishKeepsCapped(x: Arena, t: ThreadId, n: nat, last: Option<Pointer>, block: Block)
    requires Sized(x) && NoRoom(x, t, n, last) && NewBlockOk(x, t, n, last, block)
    ensures Sized(Published(x, t, block, n))
  {
    var r := Region(t, |x.blocks|, HEADER, n);
    var blocks := x.blocks + [block];
    forall j | OwnFrom(x) <= j < |blocks| ensures BlockCapped(blocks, x.regions + [r], x.startSize, x.maxSize, j) {
      if j < |x.blocks| {
        CappedStays(x.blocks, blocks, x.regions, r, x.startSize, x.maxSize, j);
      } else {
        PublishedIsCapped(x, t, n, last, block, r);
      }
    }
  }

  lemma PublishedIsCapped(x: Arena, t: ThreadId, n: nat, last: Option<Pointer>, block: Block, r: Region)
    requires NoRoom(x, t, n, last) && NewBlockOk(x, t, n, last, block) && r == Region(t, |x.blocks|, HEADER, n)
    ensures BlockCapped(x.blocks + [block], x.regions + [r], x.startSize, x.maxSize, |x.blocks|)
  {
    var blocks, j := x.blocks + [block], |x.blocks|;
    assert r in x.regions + [r];
    if last.Some? {
      assert NextOwn(blocks, last.value.index, j);
    }
  }

  lemma StepKeepsSized(x: Arena, t: ThreadId, l: Local)
    requires PcOk(x, t, l.pc) && Sized(x)
    ensures Sized(ArenaAfter(x, t, l))
  {
    if l.pc.BumpWrite? {
      var i := l.pc.b.index;
      BumpKeepsCapped(x.blocks, x.regions, i, x.blocks[i].(pos := l.pc.p + l.pc.n), Region(t, i, l.pc.p, l.pc.n),
                      x.startSize, x.maxSize, OwnFrom(x));
    } else if l.pc.Locked? {
      PublishKeepsCapped(x, t, l.pc.n, l.pc.last, l.pc.block);
    } else {
      OtherStepsKeepBlocks(x, t, l);
    }
  }

  lemma OtherStepsKeepBlocks(x: Arena, t: ThreadId, l: Local)
    requires !l.pc.BumpWrite? && !l.pc.Locked?
    ensures var y := ArenaAfter(x, t, l);
      && y.blocks == x.blocks && y.regions == x.regions
      && y.startSize == x.startSize && y.maxSize == x.maxSize && y.ownsFirstBlock == x.ownsFirstBlock
  {
  }

  ghost predicate AllSized(s: State)
  {
    forall a :: a in s.arenas ==> Sized(s.arenas[a])
  }

  lemma ActionKeepsSized(s: State, action: Action)
    requires Inv(s) && AllSized(s) && Enabled(s, action)
    ensures AllSized(After(s, action))
  {
    if action.Advance? {
      var t := action.t;
      assert ThreadOk(s, t);
      StepKeepsSized(s.arenas[s.threads[t].pc.a], t, s.threads[t]);
    }
  }

  lemma {:induction false} RunKeepsSized(s: State, run: seq<Action>)
    requires Inv(s) && AllSized(s) && EnabledRun(s, run)
    ensures AllSized(Run(s, run))
    decreases run
  {
    if run != [] {
      StepKeepsInv(s, run[0]);
      ActionKeepsSized(s, run[0]);
      RunKeepsSized(After(s, run[0]), run[1..]);
    }
  }

  /** Nothing grows past the limit: after every run, a block that the arena allocated has
      the start size if it is its thread's first, and otherwise twice the size of the
      thread's block before it or the limit, whichever is less; only a block that holds
      a single request that asked for more is larger. */
  lemma SizesOfRun(start: State, run: seq<Action>, a: ArenaId, j: nat)
    requires Start(start) && EnabledRun(start, run) && a in Run(start, run).arenas
    requires var x := Run(start, run).arenas[a]; j < |x.blocks| && (j > 0 || x.ownsFirstBlock)
    ensures var x := Run(start, run).arenas[a];
      var size := x.blocks[j].size;
      var single := exists r :: r in x.regions && r.block == j && r.start == HEADER && size == HEADER + r.size;
      && (size <= x.startSize || size <= x.maxSize || single)
      && ((forall i :: 0 <= i < j ==> x.blocks[i].owner != x.blocks[j].owner) ==>
            size == x.startSize || (size > x.startSize && single))
      && (forall i :: 0 <= i < j && NextOwn(x.blocks, i, j) ==>
            var doubled := 2 * x.blocks[i].size;
            var rule := if doubled <= x.maxSize then doubled else x.maxSize;
            size == rule || (size > rule && single))
  {
    StartInv(start);
    RunKeepsInv(start, run);
    RunKeepsSized(start, run);
    SizeOfBlock(Run(start, run).arenas[a], j);
  }

  lemma SizeOfBlock(x: Arena, j: nat)
    requires Growing(x.blocks, x.maxSize) && Sized(x) && OwnFrom(x) <= j < |x.blocks|
    ensures var size := x.blocks[j].size;
      && (size <= x.startSize || size <= x.maxSize || ExactFit(x.blocks, x.regions, j))
      && (FirstOwn(x.blocks, j) ==> size == x.startSize || (size > x.startSize && ExactFit(x.blocks, x.regions, j)))
      && (forall i :: 0 <= i < j && NextOwn(x.blocks, i, j) ==>
            var doubled := 2 * x.blocks[i].size;
            var rule := if doubled <= x.maxSize then doubled else x.maxSize;
            size == rule || (size > rule && ExactFit(x.blocks, x.regions, j)))
  {
    assert BlockCapped(x.blocks, x.regions, x.startSize, x.maxSize, j);
    if AtMostDoubled(x.blocks, j, x.maxSize) {
      var p :| 0 <= p < j && NextOwn(x.blocks, p, j) && x.blocks[j].size <= x.maxSize && x.blocks[j].size <= 2 * x.blocks[p].size;
      assert forall i :: 0 <= i < j && NextOwn(x.blocks, i, j) ==> i == p;
    }
  }

  // ----- What outlives a reset ---------------------------------------------------

  lemma StepKeepsOptions(x: Arena, t: ThreadId, l: Local)
    requires PcOk(x, t, l.pc) && ArenaOk(x)
    ensures var y := ArenaAfter(x, t, l);
      && y.startSize == x.startSize && y.maxSize == x.maxSize && y.ownsFirstBlock == x.ownsFirstBlock
      && |y.blocks| >= |x.blocks| && (x.blocks != [] ==> y.blocks[0].size == x.blocks[0].size)
  {
    if !l.pc.BumpWrite? && !l.pc.Locked? { OtherStepsKeepBlocks(x, t, l); }
  }

  ghost predicate SameArena(x: Arena, y: Arena)
  {
    && y.startSize == x.startSize && y.maxSize == x.maxSize && y.ownsFirstBlock == x.ownsFirstBlock
    && (!x.ownsFirstBlock ==> x.blocks != [] && y.blocks != [] && y.blocks[0].size == x.blocks[0].size)
  }

  lemma ActionKeepsUserBlock(s: State, action: Action, a: ArenaId)
    requires Inv(s) && Enabled(s, action) && a in s.arenas && !(action.Destroy? && action.a == a)
    ensures a in After(s, action).arenas && SameArena(s.arenas[a], After(s, action).arenas[a])
  {
    if action.Advance? {
      var t := action.t;
      assert ThreadOk(s, t);
      StepKeepsOptions(s.arenas[s.threads[t].pc.a], t, s.threads[t]);
    }
  }

  /** Until it is destroyed an arena keeps its options and, through every reset, the
      block its user supplied. */
  lemma {:induction false} UserBlockStays(s: State, run: seq<Action>, a: ArenaId)
    requires Inv(s) && EnabledRun(s, run) && a in s.arenas
    requires forall action :: action in run ==> !(action.Destroy? && action.a == a)
    ensures a in Run(s, run).arenas
    ensures var x, y := s.arenas[a], Run(s, run).arenas[a];
      && y.startSize == x.startSize && y.maxSize == x.maxSize && y.ownsFirstBlock == x.ownsFirstBlock
      && (!x.ownsFirstBlock ==> x.blocks != [] && y.blocks != [] && y.blocks[0].size == x.blocks[0].size)
    decreases run
  {
    if run == [] {
      assert ArenaOk(s.arenas[a]);
    } else {
      assert run[0] in run;
      StepKeepsInv(s, run[0]);
      ActionKeepsUserBlock(s, run[0], a);
      UserBlockStays(After(s, run[0]), run[1..], a);
    }
  }
}
