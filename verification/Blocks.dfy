// Division of an index range into blocks, as in ThreadPool::blocks of
// tools/z3-bench/z3-bench.cpp.
module IndexBlocks {
  import opened Common

  function Min(a: nat, b: nat): nat {
    if a < b then a else b
  }

  // The five numbers that a division consists of.
  datatype Division = Division(first: int, afterLast: int, numBlocks: nat, blockSize: nat, remainder: nat) {

    ghost predicate Valid() {
      if afterLast > first then
        && 0 < numBlocks && 0 < blockSize && remainder < numBlocks
        && numBlocks * blockSize + remainder == afterLast - first
      else
        numBlocks == 0
    }

    function Start(block: nat): int {
      first + block * blockSize + (if block < remainder then block else remainder)
    }

    function End(block: nat): int {
      if block == numBlocks - 1 then afterLast else Start(block + 1)
    }
  }

  class Blocks {
    var firstIndex: int
    var indexAfterLast: int
    var numBlocks: nat
    var blockSize: nat
    var remainder: nat

    function View(): Division
      reads this
    {
      Division(firstIndex, indexAfterLast, numBlocks, blockSize, remainder)
    }

    // The fallback for an empty block size is never taken: there are no more
    // blocks than indices.
    constructor (first: int, afterLast: int, requested: nat)
      requires requested > 0
      ensures View().Valid() && View().first == first && View().afterLast == afterLast
      ensures numBlocks == if afterLast > first then Min(requested, afterLast - first) else 0
    {
      firstIndex, indexAfterLast, numBlocks := first, afterLast, requested;
      blockSize, remainder := 0, 0;
      new;
      if indexAfterLast > firstIndex {
        var totalSize := indexAfterLast - firstIndex;
        numBlocks := Min(numBlocks, totalSize);
        QuotientAndRemainder(totalSize, numBlocks);
        blockSize := totalSize / numBlocks;
        remainder := totalSize % numBlocks;
        if blockSize == 0 {
          assert false;
        }
      } else {
        numBlocks := 0;
      }
    }
  }

  lemma QuotientAndRemainder(total: nat, n: nat)
    requires 0 < n <= total
    ensures total / n > 0 && n * (total / n) + total % n == total && total % n < n
  {
  }

  lemma DivisionUnique(total: nat, n: nat, q: nat, r: nat)
    requires n > 0 && r < n && n * q + r == total
    ensures q == total / n && r == total % n
  {
    assert q * n == n * q;
    QuotientUnique(total, n, q);
  }

  // Block sizes differ by at most one: exactly the first `remainder` blocks are larger.
  lemma BlockLength(d: Division, i: nat)
    requires d.Valid() && i < d.numBlocks
    ensures d.End(i) - d.Start(i) == d.blockSize + (if i < d.remainder then 1 else 0)
    ensures d.Start(i) < d.End(i)
    ensures d.blockSize == (d.afterLast - d.first) / d.numBlocks && d.remainder == (d.afterLast - d.first) % d.numBlocks
  {
    DivisionUnique(d.afterLast - d.first, d.numBlocks, d.blockSize, d.remainder);
    assert (i + 1) * d.blockSize == i * d.blockSize + d.blockSize;
  }

  // The blocks are contiguous from the first index to the last.
  lemma BlocksContiguous(d: Division)
    requires d.Valid() && d.numBlocks > 0
    ensures d.Start(0) == d.first && d.End(d.numBlocks - 1) == d.afterLast
    ensures forall i :: 0 <= i < d.numBlocks - 1 ==> d.End(i) == d.Start(i + 1)
  {
  }

  lemma {:induction false} StartsIncrease(d: Division, i: nat, j: nat)
    requires d.Valid() && i < j < d.numBlocks
    ensures d.End(i) <= d.Start(j)
    decreases j
  {
    if i < j - 1 {
      StartsIncrease(d, i, j - 1);
      BlockLength(d, j - 1);
    }
  }

  ghost predicate InBlock(d: Division, x: int, i: nat) {
    i < d.numBlocks && d.Start(i) <= x < d.End(i)
  }

  // Every index of the range lies in exactly one block, and no other index in any.
  lemma BlocksPartition(d: Division, x: int)
    requires d.Valid()
    ensures d.first <= x < d.afterLast <==> exists i: nat :: InBlock(d, x, i)
    ensures forall i: nat, j: nat :: InBlock(d, x, i) && InBlock(d, x, j) ==> i == j
  {
    forall i: nat, j: nat | InBlock(d, x, i) && InBlock(d, x, j) ensures i == j {
      if i < j {
        StartsIncrease(d, i, j);
      } else if j < i {
        StartsIncrease(d, j, i);
      }
    }
    if d.first <= x < d.afterLast {
      var i := FindBlock(d, x, d.numBlocks - 1);
    }
    if i: nat :| InBlock(d, x, i) {
      BlocksContiguous(d);
      if i > 0 {
        StartsIncrease(d, 0, i);
        BlockLength(d, 0);
      }
      if i < d.numBlocks - 1 {
        StartsIncrease(d, i, d.numBlocks - 1);
        BlockLength(d, d.numBlocks - 1);
      }
    }
  }

  lemma {:induction false} FindBlock(d: Division, x: int, last: nat) returns (i: nat)
    requires d.Valid() && last < d.numBlocks && d.first <= x < d.End(last)
    ensures InBlock(d, x, i)
  {
    if x >= d.Start(last) {
      i := last;
    } else {
      i := FindBlock(d, x, last - 1);
    }
  }

  // The number of blocks that are one larger is the remainder.
  function LargerBlocks(d: Division, n: nat): nat {
    if n == 0 then 0
    else LargerBlocks(d, n - 1) + (if d.End(n - 1) - d.Start(n - 1) == d.blockSize + 1 then 1 else 0)
  }

  lemma {:induction false} LargerBlocksCount(d: Division, n: nat)
    requires d.Valid() && n <= d.numBlocks
    ensures LargerBlocks(d, n) == Min(n, d.remainder)
  {
    if n > 0 {
      LargerBlocksCount(d, n - 1);
      BlockLength(d, n - 1);
    }
  }
}
