/**
 Loops over blocks of rows whose first row is computed as an int product.
 */
module Blocks {
  import opened Arithmetic

  /** `blocks` blocks cover `n` rows, and every block starts where it should. */
  ghost predicate StartsRight(n: nat, block: nat, blocks: int) {
    && Covers(n, block, blocks)
    && forall b {:trigger Int32(block * b)} :: 0 <= b < blocks ==> Int32(block * b) == block * b
  }

  /** No row is left out and no block is empty. */
  predicate Covers(n: nat, block: nat, blocks: int) {
    blocks >= 0 && block * blocks >= n && (blocks > 0 ==> block * (blocks - 1) < n)
  }

  /** The number of blocks in count_ht.c:112-115. */
  function CountBlocks(n: nat): int {
    var blocks := Int32(n / COUNT_BLOCK);
    if Int32(blocks * COUNT_BLOCK) < n then blocks + 1 else blocks
  }

  const COUNT_BLOCK := 2097152

  /** The number of blocks in approx_unique.c:174-177. */
  function HashBlocks(n: nat): int {
    var blocks := Int32(n / HASH_BLOCK);
    if Int32(blocks * HASH_BLOCK) != n then blocks + 1 else blocks
  }

  const HASH_BLOCK := 1048576

  /** count_ht visits the right blocks exactly up to INT_MAX rows. */
  lemma CountBlocksExact(n: nat)
    ensures StartsRight(n, COUNT_BLOCK, CountBlocks(n)) <==> n <= INT_MAX
  {
    if n <= INT_MAX {
      forall b | 0 <= b < CountBlocks(n) ensures Int32(COUNT_BLOCK * b) == COUNT_BLOCK * b {}
    } else if n / COUNT_BLOCK <= INT_MAX {
      assert CountBlocks(n) > 1024;
      assert Int32(COUNT_BLOCK * 1024) != COUNT_BLOCK * 1024;
    } else {
      Int32Facts(n / COUNT_BLOCK);
    }
  }

  /** And so does approx_unique. */
  lemma HashBlocksExact(n: nat)
    ensures StartsRight(n, HASH_BLOCK, HashBlocks(n)) <==> n <= INT_MAX
  {
    if n <= INT_MAX {
      forall b | 0 <= b < HashBlocks(n) ensures Int32(HASH_BLOCK * b) == HASH_BLOCK * b {}
    } else if n / HASH_BLOCK <= INT_MAX {
      assert HashBlocks(n) > 2048;
      assert Int32(HASH_BLOCK * 2048) != HASH_BLOCK * 2048;
    } else {
      Int32Facts(n / HASH_BLOCK);
    }
  }
}
