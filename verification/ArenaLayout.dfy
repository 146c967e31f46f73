/** Sizes and offsets of arena blocks, as the serial and the concurrent model share
    them. Sizes do not wrap. */
module ArenaLayout {

  import opened Basics

  /** sizeof(Arena::Block) where pointers have eight bytes. */
  const HEADER: nat := 32

  /** A request, rounded up to a multiple of 8: `(n + 7) & -8`. */
  function Align(n: nat): nat
  {
    (n + 7) / 8 * 8
  }

  /** NewBlock: twice the last block's size, up to a limit, but enough for the request. */
  function NewBlockSize(lastSize: Option<nat>, n: nat, startSize: nat, maxSize: nat): nat
  {
    var size := if lastSize.None? then startSize
                else if 2 * lastSize.value > maxSize then maxSize
                else 2 * lastSize.value;
    if size < HEADER + n then HEADER + n else size
  }

  /** Twice the last size, and never past the limit, unless one request alone calls for
      more; then no more than that. */
  lemma NewBlockSizeIsCapped(lastSize: Option<nat>, n: nat, startSize: nat, maxSize: nat)
    ensures var size := NewBlockSize(lastSize, n, startSize, maxSize);
      && size >= HEADER + n
      && (size > HEADER + n && lastSize.None? ==> size == startSize)
      && (size > HEADER + n && lastSize.Some? ==> size <= maxSize && size <= 2 * lastSize.value)
      && (lastSize.None? ==> size >= startSize)
      && (lastSize.Some? ==> size >= 2 * lastSize.value || size >= maxSize)
  {
  }

  /** Rounding wastes less than 8 bytes and a multiple of 8 is left alone. */
  lemma AlignIsTight(n: nat)
    ensures n <= Align(n) < n + 8 && Align(n) % 8 == 0
    ensures Align(Align(n)) == Align(n)
  {
  }
}
