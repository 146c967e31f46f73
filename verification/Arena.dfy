/** The class Arena, its blocks and thread caches, one operation at a time; any thread
    may be the one that calls. */
module Arena {
  import opened Basics
  import opened ArenaLayout

  class SequenceNumber {
    var next: nat

    constructor ()
      ensures next == 0
    {
      next := 0;
    }

    method GetNext() returns (r: nat)
      modifies this
      ensures r == old(next) && next == old(next) + 1
    {
      r := next;
      next := next + 1;
    }
  }

  /** A thread is known by the address of its cache. */
  class ThreadCache {
    var lastLifecycleIdSeen: int
    var lastBlockUsed: Block?

    constructor ()
      ensures lastLifecycleIdSeen == -1 && lastBlockUsed == null
    {
      lastLifecycleIdSeen, lastBlockUsed := -1, null;
    }
  }

  class Block {
    var owner: ThreadCache
    var next: Block?
    var pos: nat
    var size: nat

    constructor (owner: ThreadCache, pos: nat, size: nat)
      ensures this.owner == owner && this.pos == pos && this.size == size
    {
      this.owner, this.pos, this.size := owner, pos, size;
      next := null;
    }

    function Avail(): int
      reads this
    {
      size - pos
    }
  }

  // ----- Lists of blocks ---------------------------------------------------------

  /** The `k`th block, counted from 1 for the oldest; none for 0. */
  function At(list: seq<Block>, k: nat): Block?
    requires k <= |list|
  {
    if k == 0 then null else list[k - 1]
  }

  /** `list` is the blocks that `head` leads to, oldest first. */
  ghost predicate Chain(head: Block?, list: seq<Block>)
    reads list`next
  {
    head == At(list, |list|) && forall i {:trigger Linked(list, i)} :: 0 <= i < |list| ==> Linked(list, i)
  }

  ghost predicate Linked(list: seq<Block>, i: nat)
    requires i < |list|
    reads list`next
  {
    list[i].next == At(list, i)
  }

  ghost predicate Distinct(list: seq<Block>)
  {
    forall i, j :: 0 <= i < j < |list| ==> list[i] != list[j]
  }

  ghost predicate BlocksOk(list: seq<Block>)
    reads list`pos, list`size
  {
    forall i :: 0 <= i < |list| ==> HEADER <= list[i].pos <= list[i].size && list[i].pos % 8 == 0
  }

  /** `k` is the thread's newest block, counted from 1; 0 if it has none. */
  ghost predicate IsNewest(list: seq<Block>, me: ThreadCache, k: nat)
    reads list`owner
  {
    && k <= |list| && (k > 0 ==> list[k - 1].owner == me)
    && forall j :: k <= j < |list| ==> list[j].owner != me
  }

  /** The sum of the first `n`. */
  function SumTo(s: seq<int>, n: nat): int
    requires n <= |s|
  {
    if n == 0 then 0 else SumTo(s, n - 1) + s[n - 1]
  }

  function Sum(s: seq<int>): int
  {
    SumTo(s, |s|)
  }

  lemma {:induction false} SumToOfUpdate(s: seq<int>, i: nat, x: int, n: nat)
    requires i < |s| && n <= |s|
    ensures SumTo(s[i := x], n) == SumTo(s, n) + if i < n then x - s[i] else 0
  {
    if n > 0 { SumToOfUpdate(s, i, x, n - 1); }
  }

  lemma SumOfUpdate(s: seq<int>, i: nat, x: int)
    requires i < |s|
    ensures Sum(s[i := x]) == Sum(s) + x - s[i]
  {
    SumToOfUpdate(s, i, x, |s|);
  }

  lemma {:induction false} SumToOfAppend(s: seq<int>, x: int, n: nat)
    requires n <= |s|
    ensures SumTo(s + [x], n) == SumTo(s, n)
  {
    if n > 0 { SumToOfAppend(s, x, n - 1); }
  }

  lemma SumOfAppend(s: seq<int>, x: int)
    ensures Sum(s + [x]) == Sum(s) + x
  {
    SumToOfAppend(s, x, |s|);
  }

  lemma SumOfNothing(s: seq<int>)
    requires s == [] || s == [0]
    ensures Sum(s) == 0
  {
    assert s != [] ==> SumTo(s, 1) == SumTo(s, 0) + s[0];
  }

  class Arena {
    const startBlockSize: nat
    const maxBlockSize: nat
    const generator: SequenceNumber
    var lifecycleId: int
    var blocks: Block?
    var hint: Block?
    var spaceAllocated: nat
    var ownsFirstBlock: bool
    ghost var list: seq<Block>
    ghost var sizes: seq<int>
    ghost var used: seq<int>

    /** Init. The thread that creates the arena owns the block it was given. No cache
        matches the new id, for the generator never gave it out. */
    constructor (generator: SequenceNumber, initialBlock: Block?, me: ThreadCache, startBlockSize: nat, maxBlockSize: nat)
      requires initialBlock != null ==> initialBlock.size >= HEADER
      requires me.lastLifecycleIdSeen < generator.next
      modifies generator, initialBlock, me
      ensures this.generator == generator && generator.next == old(generator.next) + 1
      ensures Valid() && CacheOk(me) && lifecycleId == old(generator.next)
      ensures forall c: ThreadCache :: c != me && old(allocated(c) && c.lastLifecycleIdSeen < generator.next) ==> CacheOk(c)
      ensures if initialBlock == null then list == []
              else list == [initialBlock] && initialBlock.pos == HEADER && initialBlock.owner == me
      ensures ownsFirstBlock <==> initialBlock == null
      ensures initialBlock != null ==> me.lastBlockUsed == initialBlock && me.lastLifecycleIdSeen == lifecycleId
    {
      this.generator, this.startBlockSize, this.maxBlockSize := generator, startBlockSize, maxBlockSize;
      blocks, hint, spaceAllocated, ownsFirstBlock, list, sizes, used := null, null, 0, true, [], [], [];
      new;
      lifecycleId := generator.GetNext();
      if initialBlock != null {
        UseBlock(initialBlock, me);
      }
    }

    method UseBlock(b: Block, me: ThreadCache)
      requires ListOk() && list == [] && b.size >= HEADER && lifecycleId < generator.next
      modifies this`blocks, this`hint, this`spaceAllocated, this`list, this`sizes, this`used, this`ownsFirstBlock, b, me
      ensures Valid() && CacheOk(me)
      ensures list == [b] && b.pos == HEADER && b.owner == me && !ownsFirstBlock
      ensures me.lastBlockUsed == b && me.lastLifecycleIdSeen == lifecycleId
    {
      AddFirstBlock(b, me);
      ownsFirstBlock := false;
      assert HoldsNewest(me, 1);
    }

    ghost predicate Valid()
      reads this, list, generator
    {
      ListOk() && (!ownsFirstBlock ==> list != []) && lifecycleId < generator.next
    }

    ghost predicate ListOk()
      reads this`blocks, this`hint, this`spaceAllocated, this`list, this`sizes, this`used, list
    {
      Chained() && Tallied()
    }

    ghost predicate Chained()
      reads this`blocks, this`hint, this`list, list`next
    {
      Chain(blocks, list) && Distinct(list) && (hint != null ==> hint in list)
    }

    /** What the blocks hold, and the sum of their sizes. */
    ghost predicate Tallied()
      reads this`spaceAllocated, this`list, this`sizes, this`used, list`pos, list`size
    {
      && BlocksOk(list) && spaceAllocated == Sum(sizes) && |sizes| == |list| == |used|
      && (forall i :: 0 <= i < |list| ==> sizes[i] == list[i].size && used[i] == list[i].pos - HEADER)
    }

    /** A cache knows no id that was not given out, and one that matches this arena holds
        the thread's newest block here. */
    ghost predicate CacheOk(me: ThreadCache)
      reads this`list, this`lifecycleId, list`owner, me, generator
    {
      && me.lastLifecycleIdSeen < generator.next
      && (me.lastLifecycleIdSeen == lifecycleId && me.lastBlockUsed != null ==>
            exists k :: 0 < k <= |list| && HoldsNewest(me, k))
    }

    ghost predicate HoldsNewest(me: ThreadCache, k: nat)
      requires 0 < k <= |list|
      reads this`list, list`owner, me
    {
      IsNewest(list, me, k) && list[k - 1] == me.lastBlockUsed
    }

    method FindBlock(me: ThreadCache) returns (b: Block?, ghost k: nat)
      requires Valid()
      ensures if b == null then forall i :: 0 <= i < |list| ==> list[i].owner != me else b in list && b.owner == me
      ensures IsNewest(list, me, k) && b == At(list, k)
    {
      b := blocks;
      k := |list|;
      while b != null && b.owner != me
        invariant k <= |list| && b == At(list, k)
        invariant forall j :: k <= j < |list| ==> list[j].owner != me
        decreases k
      {
        assert Linked(list, k - 1);
        b := b.next;
        k := k - 1;
      }
    }

    method SpaceUsed() returns (space: int)
      requires Valid()
      ensures space == Sum(used)
    {
      space := 0;
      var b := blocks;
      ghost var k: nat := |list|;
      while b != null
        invariant k <= |list| && b == At(list, k)
        invariant space + SumTo(used, k) == Sum(used)
        decreases k
      {
        assert Linked(list, k - 1);
        space := space + (b.pos - HEADER);
        b := b.next;
        k := k - 1;
      }
    }

    method SetThreadCacheBlock(me: ThreadCache, b: Block)
      modifies me
      ensures me.lastBlockUsed == b && me.lastLifecycleIdSeen == lifecycleId
    {
      me.lastBlockUsed := b;
      me.lastLifecycleIdSeen := lifecycleId;
    }

    /** Puts a block at the head of the list, and points the hint at it if it has room. */
    method AddBlock(b: Block)
      requires ListOk() && b !in list && HEADER <= b.pos <= b.size && b.pos % 8 == 0
      modifies this`blocks, this`hint, this`spaceAllocated, this`list, this`sizes, this`used, b`next
      ensures ListOk() && list == old(list) + [b] && used == old(used) + [b.pos - HEADER]
      ensures hint == if b.Avail() != 0 then b else old(hint)
    {
      Link(b);
      spaceAllocated := spaceAllocated + b.size;
      SumOfAppend(sizes, b.size);
      sizes, used := sizes + [b.size], used + [b.pos - HEADER];
    }

    method Link(b: Block)
      requires Chained() && b !in list
      modifies this`blocks, this`hint, this`list, b`next
      ensures Chained() && list == old(list) + [b]
      ensures hint == if b.Avail() != 0 then b else old(hint)
    {
      b.next := blocks;
      blocks := b;
      if b.Avail() != 0 { hint := b; }
      list := list + [b];
      forall i | 0 <= i < |list| ensures Linked(list, i) {
        assert i == |list| - 1 || old(Linked(list, i));
      }
    }

    /** The user's block becomes the only one, empty, and the calling thread's. */
    method AddFirstBlock(b: Block, me: ThreadCache)
      requires ListOk() && list == [] && b.size >= HEADER && lifecycleId < generator.next
      modifies this`blocks, this`hint, this`spaceAllocated, this`list, this`sizes, this`used, b, me
      ensures ListOk() && lifecycleId < generator.next && CacheOk(me)
      ensures list == [b] && b.pos == HEADER && b.owner == me && b.size == old(b.size) && HoldsNewest(me, 1)
      ensures me.lastBlockUsed == b && me.lastLifecycleIdSeen == lifecycleId
    {
      b.pos, b.owner := HEADER, me;
      SetThreadCacheBlock(me, b);
      AddBlock(b);
      assert HoldsNewest(me, 1);
    }

    // ----- Allocation ----------------------------------------------------------

    /** Returns in which block of the thread the memory starts, and where. The block's
        position moves past it, or the block is new, and then the thread had no room in
        its newest. Nothing else moves. */
    method AllocateAligned(request: nat, me: ThreadCache) returns (b: Block, p: nat)
      requires Valid() && CacheOk(me)
      modifies this`blocks, this`hint, this`spaceAllocated, this`list, this`sizes, this`used, me, list
      ensures Valid() && CacheOk(me)
      ensures forall c: ThreadCache :: c != me && old(allocated(c) && CacheOk(c)) ==> CacheOk(c)
      ensures b in list && b.owner == me && b.pos == p + Align(request) <= b.size && p % 8 == 0
      ensures fresh(b) ==> list == old(list) + [b] && p == HEADER
      ensures fresh(b) ==> var size := b.size; old(NeedsBlock(me, Align(request), size))
      ensures fresh(b) ==> b.size == HEADER + Align(request) || b.size <= startBlockSize || b.size <= maxBlockSize
      ensures !fresh(b) ==> list == old(list) && b in old(list) && p == old(b.pos)
      ensures forall c :: c in old(list) ==> c.owner == old(c.owner) && c.size == old(c.size) && (c != b ==> c.pos == old(c.pos))
      ensures Sum(used) == old(Sum(used)) + Align(request)
    {
      var n := Align(request);
      AlignIsTight(request);
      if me.lastLifecycleIdSeen == lifecycleId && me.lastBlockUsed != null {
        if me.lastBlockUsed.Avail() < n {
          b, p := SlowAlloc(n, me);
          return;
        }
        b := me.lastBlockUsed;
        p := AllocFromBlock(b, n);
        return;
      }
      if hint == null || hint.owner != me || hint.Avail() < n {
        b, p := SlowAlloc(n, me);
        return;
      }
      b := hint;
      p := AllocFromBlock(b, n);
    }

    /** A new block of this size is called for: the thread has no room in its newest. The
        size is the start size for its first block, and twice the newest or the limit,
        whichever is less, for others, unless the request needs more: then it is exactly
        what the request needs. */
    ghost predicate NeedsBlock(me: ThreadCache, n: nat, size: nat)
      reads this, list
    {
      exists k :: 0 <= k <= |list| && IsNewest(list, me, k) && NoRoomAt(k, n, size)
    }

    ghost predicate NoRoomAt(k: nat, n: nat, size: nat)
      requires k <= |list|
      reads this, list
    {
      if k == 0 then size >= startBlockSize && (size == startBlockSize || size == HEADER + n)
      else
        var last := list[k - 1];
        && last.Avail() < n
        && (size >= 2 * last.size || size >= maxBlockSize)
        && (size == HEADER + n || (size <= 2 * last.size && size <= maxBlockSize))
    }

    method AllocFromBlock(b: Block, n: nat) returns (p: nat)
      requires Valid() && b in list && b.Avail() >= n && n % 8 == 0
      modifies b`pos, this`used
      ensures Valid() && p == old(b.pos) && b.pos == p + n
      ensures forall c: ThreadCache :: old(allocated(c) && CacheOk(c)) ==> CacheOk(c)
      ensures Sum(used) == old(Sum(used)) + n
    {
      p := Bump(b, n);
    }

    method Bump(b: Block, n: nat) returns (p: nat)
      requires Distinct(list) && Tallied() && b in list && b.Avail() >= n && n % 8 == 0
      modifies b`pos, this`used
      ensures Tallied() && p == old(b.pos) && b.pos == p + n
      ensures Sum(used) == old(Sum(used)) + n
    {
      p := b.pos;
      ghost var j :| 0 <= j < |list| && list[j] == b;
      BumpAt(j, b, n);
    }

    method BumpAt(ghost j: nat, b: Block, n: nat)
      requires Distinct(list) && Tallied() && j < |list| && list[j] == b && b.Avail() >= n && n % 8 == 0
      modifies b`pos, this`used
      ensures Tallied() && b.pos == old(b.pos) + n
      ensures Sum(used) == old(Sum(used)) + n
    {
      b.pos := b.pos + n;
      SumOfUpdate(used, j, used[j] + n);
      used := used[j := used[j] + n];
    }

    method SlowAlloc(n: nat, me: ThreadCache) returns (b: Block, p: nat)
      requires Valid() && me.lastLifecycleIdSeen < generator.next && n % 8 == 0
      modifies this`blocks, this`hint, this`spaceAllocated, this`list, this`sizes, this`used, me, list
      ensures Valid() && CacheOk(me)
      ensures forall c: ThreadCache :: c != me && old(allocated(c) && CacheOk(c)) ==> CacheOk(c)
      ensures me.lastBlockUsed == b && me.lastLifecycleIdSeen == lifecycleId
      ensures hint == if !fresh(b) || b.Avail() != 0 then b else old(hint)
      ensures b in list && b.owner == me && b.pos == p + n <= b.size && p % 8 == 0
      ensures fresh(b) ==> list == old(list) + [b] && p == HEADER
      ensures fresh(b) ==> var size := b.size; old(NeedsBlock(me, n, size))
      ensures fresh(b) ==> b.size == HEADER + n || b.size <= startBlockSize || b.size <= maxBlockSize
      ensures !fresh(b) ==> list == old(list) && b in old(list) && p == old(b.pos)
      ensures forall c :: c in old(list) ==> c.owner == old(c.owner) && c.size == old(c.size) && (c != b ==> c.pos == old(c.pos))
      ensures Sum(used) == old(Sum(used)) + n
    {
      var found;
      ghost var k;
      found, k := FindBlock(me);
      if found != null && found.Avail() >= n {
        b := found;
        p := UseNewest(me, b, n, k);
      } else {
        b := AddNewBlock(me, found, n, k);
        p := HEADER;
      }
    }

    method UseNewest(me: ThreadCache, b: Block, n: nat, ghost k: nat) returns (p: nat)
      requires Valid() && n % 8 == 0 && IsNewest(list, me, k) && b == At(list, k) && b.Avail() >= n
      modifies this`hint, this`used, me, b`pos
      ensures Valid() && CacheOk(me) && b in list
      ensures forall c: ThreadCache :: c != me && old(allocated(c) && CacheOk(c)) ==> CacheOk(c)
      ensures p == old(b.pos) && b.pos == p + n && b.owner == me
      ensures me.lastBlockUsed == b && me.lastLifecycleIdSeen == lifecycleId && hint == b
      ensures Sum(used) == old(Sum(used)) + n
    {
      SetThreadCacheBlock(me, b);
      hint := b;
      assert HoldsNewest(me, k);
      forall c: ThreadCache | c != me && old(allocated(c) && CacheOk(c)) ensures CacheOk(c) {
        if c.lastLifecycleIdSeen == lifecycleId && c.lastBlockUsed != null {
          ghost var j :| 0 < j <= |list| && old(HoldsNewest(c, j));
          assert HoldsNewest(c, j);
        }
      }
      p := AllocFromBlock(b, n);
    }

    method AddNewBlock(me: ThreadCache, last: Block?, n: nat, ghost k: nat) returns (b: Block)
      requires Valid() && n % 8 == 0 && IsNewest(list, me, k) && last == At(list, k) && (last != null ==> last.Avail() < n)
      modifies this`blocks, this`hint, this`spaceAllocated, this`list, this`sizes, this`used, me
      ensures Valid() && CacheOk(me) && b in list
      ensures forall c: ThreadCache :: c != me && old(allocated(c) && CacheOk(c)) ==> CacheOk(c)
      ensures me.lastBlockUsed == b && me.lastLifecycleIdSeen == lifecycleId
      ensures hint == if b.Avail() != 0 then b else old(hint)
      ensures fresh(b) && b.owner == me && b.pos == HEADER + n <= b.size && list == old(list) + [b]
      ensures var size := b.size; old(NeedsBlock(me, n, size))
      ensures b.size == HEADER + n || b.size <= startBlockSize || b.size <= maxBlockSize
      ensures Sum(used) == old(Sum(used)) + n
    {
      b := Publish(me, last, n, k);
      SetThreadCacheBlock(me, b);
      assert HoldsNewest(me, |list|);
    }

    /** The new block, in the list but not yet cached. */
    method Publish(me: ThreadCache, last: Block?, n: nat, ghost k: nat) returns (b: Block)
      requires Valid() && n % 8 == 0 && IsNewest(list, me, k) && last == At(list, k) && (last != null ==> last.Avail() < n)
      modifies this`blocks, this`hint, this`spaceAllocated, this`list, this`sizes, this`used
      ensures Valid() && IsNewest(list, me, |list|)
      ensures forall c: ThreadCache :: c != me && old(allocated(c) && CacheOk(c)) ==> CacheOk(c)
      ensures hint == if b.Avail() != 0 then b else old(hint)
      ensures fresh(b) && b.owner == me && b.pos == HEADER + n <= b.size && list == old(list) + [b]
      ensures var size := b.size; old(NeedsBlock(me, n, size))
      ensures b.size == HEADER + n || b.size <= startBlockSize || b.size <= maxBlockSize
      ensures Sum(used) == old(Sum(used)) + n
    {
      b := NewBlock(me, last, n);
      assert NoRoomAt(k, n, b.size);
      AddBlock(b);
      SumOfAppend(old(used), n);
      forall c: ThreadCache | c != me && old(allocated(c) && CacheOk(c)) ensures CacheOk(c) {
        if c.lastLifecycleIdSeen == lifecycleId && c.lastBlockUsed != null {
          ghost var j :| 0 < j <= |old(list)| && old(HoldsNewest(c, j));
          assert HoldsNewest(c, j);
        }
      }
    }

    method NewBlock(me: ThreadCache, last: Block?, n: nat) returns (b: Block)
      requires last != null ==> last.Avail() < n
      ensures fresh(b) && b.owner == me && b.pos == HEADER + n <= b.size
      ensures b.size == NewBlockSize(if last == null then None else Some(last.size), n, startBlockSize, maxBlockSize)
      ensures last == null ==> b.size >= startBlockSize && (b.size == startBlockSize || b.size == HEADER + n)
      ensures last != null ==> b.size >= 2 * last.size || b.size >= maxBlockSize
      ensures last != null ==> b.size == HEADER + n || (b.size <= 2 * last.size && b.size <= maxBlockSize)
    {
      var size := startBlockSize;
      if last != null {
        size := 2 * last.size;
        if size > maxBlockSize { size := maxBlockSize; }
      }
      if size < HEADER + n { size := HEADER + n; }
      b := new Block(me, HEADER + n, size);
    }

    // ----- Reset ---------------------------------------------------------------

    /** A new life, which no cache has seen, but for the caller's if it gets the user's
        block. Returns the sum of the block sizes. */
    method Reset(me: ThreadCache) returns (spaceFreed: int, ghost freed: seq<Block>)
      requires Valid() && me.lastLifecycleIdSeen < generator.next
      modifies this`lifecycleId, this`blocks, this`hint, this`spaceAllocated, this`list, this`sizes, this`used, generator, me, list
      ensures Valid() && CacheOk(me) && lifecycleId == old(generator.next) && generator.next == lifecycleId + 1
      ensures forall c: ThreadCache :: c != me && old(allocated(c) && CacheOk(c)) ==> CacheOk(c)
      ensures spaceFreed == old(spaceAllocated)
      ensures freed + list == old(Backwards(list)) && |list| == (if ownsFirstBlock then 0 else 1)
      ensures list != [] ==> list[0].pos == HEADER && list[0].owner == me
      ensures list != [] ==> me.lastBlockUsed == list[0] && me.lastLifecycleIdSeen == lifecycleId
      ensures Sum(used) == 0
    {
      lifecycleId := generator.GetNext();
      spaceFreed, freed := FreeBlocks(me);
      NothingUsed();
    }

    lemma NothingUsed()
      requires Tallied() && |list| <= 1 && (list != [] ==> list[0].pos == HEADER)
      ensures Sum(used) == 0
    {
      assert |list| == 1 ==> used[0] == list[0].pos - HEADER;
      SumOfNothing(used);
    }

    ghost function Backwards(l: seq<Block>): seq<Block>
    {
      seq(|l|, i requires 0 <= i < |l| => l[|l| - 1 - i])
    }

    /** Frees every block once, newest first, except the oldest if the user supplied
        it; that one starts over. */
    method FreeBlocks(me: ThreadCache) returns (spaceFreed: int, ghost freed: seq<Block>)
      requires Valid() && me.lastLifecycleIdSeen < lifecycleId
      modifies this`blocks, this`hint, this`spaceAllocated, this`list, this`sizes, this`used, me, list
      ensures Valid() && CacheOk(me)
      ensures spaceFreed == old(spaceAllocated)
      ensures freed + list == old(Backwards(list)) && |list| == (if ownsFirstBlock then 0 else 1)
      ensures list != [] ==> list[0].pos == HEADER && list[0].owner == me
      ensures list != [] ==> me.lastBlockUsed == list[0] && me.lastLifecycleIdSeen == lifecycleId
    {
      var firstBlock;
      spaceFreed, freed, firstBlock := WalkBlocks();
      blocks, hint, spaceAllocated, list, sizes, used := null, null, 0, [], [], [];
      if !ownsFirstBlock {
        AddFirstBlock(firstBlock, me);
      }
    }

    method WalkBlocks() returns (total: int, ghost freed: seq<Block>, firstBlock: Block?)
      requires Valid()
      ensures total == spaceAllocated
      ensures ownsFirstBlock ==> firstBlock == null && freed == Backwards(list)
      ensures !ownsFirstBlock ==> firstBlock != null && firstBlock in list && freed + [firstBlock] == Backwards(list)
    {
      total, freed, firstBlock := 0, [], null;
      var b := blocks;
      ghost var k: nat := |list|;
      while b != null
        invariant k <= |list| && b == At(list, k)
        invariant total + SumTo(sizes, k) == Sum(sizes)
        invariant k > 0 || ownsFirstBlock ==> firstBlock == null && freed == Backwards(list)[..|list| - k]
        invariant k == 0 && !ownsFirstBlock ==> firstBlock == list[0] && freed == Backwards(list)[..|list| - 1]
        decreases k
      {
        assert Linked(list, k - 1);
        total := total + b.size;
        var next := b.next;
        if next != null || ownsFirstBlock {
          freed := freed + [b];
        } else {
          firstBlock := b;
        }
        b := next;
        k := k - 1;
      }
    }
  }

  // ----- Runs --------------------------------------------------------------------

  /** A call, by the thread with this cache. */
  datatype Call = Allocate(me: ThreadCache, n: nat) | StartOver(me: ThreadCache)

  /** What was asked for since the last reset, rounded up. */
  function Asked(script: seq<Call>, before: int): int
  {
    if script == [] then before
    else
      var last := script[|script| - 1];
      if last.StartOver? then 0 else Asked(script[..|script| - 1], before) + Align(last.n)
  }

  /** Any calls by any threads, one at a time: the arena stays valid, every cache that
      matches it holds its thread's newest block, and the space used is what was asked
      for since the last reset. */
  method Run(a: Arena, caches: set<ThreadCache>, script: seq<Call>, ghost blocks: set<Block>)
    requires a.Valid() && (forall c :: c in caches ==> a.CacheOk(c)) && (forall b :: b in a.list ==> b in blocks)
    requires forall i :: 0 <= i < |script| ==> script[i].me in caches
    modifies a, a.generator, caches, blocks
    ensures a.Valid() && forall c :: c in caches ==> a.CacheOk(c)
    ensures Sum(a.used) == Asked(script, old(Sum(a.used)))
  {
    ghost var all := blocks;
    for i := 0 to |script|
      invariant a.Valid() && (forall c :: c in caches ==> a.CacheOk(c)) && (forall b :: b in a.list ==> b in all)
      invariant blocks <= all && fresh(all - blocks)
      invariant Sum(a.used) == Asked(script[..i], old(Sum(a.used)))
    {
      assert script[..i + 1][..i] == script[..i];
      all := Do(a, caches, script[i], all);
    }
    assert script[..|script|] == script;
  }

  method Do(a: Arena, caches: set<ThreadCache>, call: Call, ghost blocks: set<Block>) returns (ghost all: set<Block>)
    requires a.Valid() && (forall c :: c in caches ==> a.CacheOk(c)) && (forall b :: b in a.list ==> b in blocks)
    requires call.me in caches
    modifies a, a.generator, caches, blocks
    ensures a.Valid() && (forall c :: c in caches ==> a.CacheOk(c)) && (forall b :: b in a.list ==> b in all)
    ensures blocks <= all && fresh(all - blocks)
    ensures Sum(a.used) == if call.StartOver? then 0 else old(Sum(a.used)) + Align(call.n)
  {
    match call
    case Allocate(me, n) =>
      var b, p := a.AllocateAligned(n, me);
      all := blocks + {b};
    case StartOver(me) =>
      ghost var before := a.list;
      ghost var freed;
      var space;
      space, freed := a.Reset(me);
      all := blocks;
      assert forall b :: b in a.list ==> b in freed + a.list;
      assert forall b :: b in a.Backwards(before) ==> b in before;
  }
}
