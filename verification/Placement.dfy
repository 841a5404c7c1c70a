/** The placement allocator of kernel/mm.c, before the heap exists: an address that only moves up. */
module Placement {
  import opened Memory

  /** Where an allocation lands. An aligned one moves to the following page boundary even from a boundary. */
  function Landing(at: nat, align: bool): nat {
    if align && at >= PAGE_SIZE then at - at % PAGE_SIZE + PAGE_SIZE else at
  }

  /** An aligned allocation lands on the page boundary behind the address it finds, wherever in its page that is; an
      unaligned one, and any in the first page, lands where it finds it. */
  lemma LandingIs(at: nat, align: bool)
    ensures align && 0x1000 <= at ==> Landing(at, align) % 0x1000 == 0 && at < Landing(at, align) <= at + 0x1000
    ensures !align || at < 0x1000 ==> Landing(at, align) == at
  {
  }

  /** The placement address after a page table is allocated. */
  function AfterTable(at: nat): nat {
    Landing(at, true) + PAGE_SIZE
  }

  /** The placement address after `n` page tables. */
  function AfterTables(at: nat, n: nat): nat {
    if n == 0 then at else AfterTable(AfterTables(at, n - 1))
  }

  /** A page table costs at most two pages, and leaves the placement address on a page boundary. */
  lemma {:induction false} TablesCost(at: nat, n: nat)
    ensures at + n * PAGE_SIZE <= AfterTables(at, n) <= at + n * 2 * PAGE_SIZE
    ensures n > 0 && PAGE_SIZE <= at ==> AfterTables(at, n) % PAGE_SIZE == 0
    decreases n
  {
    if n > 0 {
      TablesCost(at, n - 1);
    }
  }

  /** From a page boundary on every table costs two pages: the one that the alignment skips, and its own. */
  lemma {:induction false} TablesFromBoundary(at: nat, n: nat)
    requires 0x1000 <= at && at % 0x1000 == 0
    ensures AfterTables(at, n) == at + n * 0x2000 && Landing(AfterTables(at, n), true) == at + n * 0x2000 + 0x1000
    decreases n
  {
    if n > 0 {
      TablesFromBoundary(at, n - 1);
    }
  }

  /** The bytes that the tables of a directory cover together map. */
  const TABLE_SPAN := 0x40_0000

  /** The number of tables an identity map from 0 needs, when each of them moves the end of what must be mapped. */
  function TablesNeeded(at: nat, n: nat): nat
    decreases at - (TABLE_SPAN - 2 * PAGE_SIZE) * n
  {
    if AfterTables(at, n) <= n * TABLE_SPAN then n
    else
      assert at > (TABLE_SPAN - 2 * PAGE_SIZE) * n by { TablesCost(at, n); }
      TablesNeeded(at, n + 1)
  }

  /** With each of the first n numbers of tables the map still stops short of the placement address. */
  predicate Behind(at: nat, n: nat) {
    forall t :: 0 <= t < n ==> t * TABLE_SPAN < AfterTables(at, t)
  }

  /** It is the least number of tables whose span reaches the placement address they leave behind. */
  lemma {:induction false} TablesNeededLeast(at: nat, n: nat)
    requires Behind(at, n)
    ensures var k := TablesNeeded(at, n);
            && n <= k && AfterTables(at, k) <= k * TABLE_SPAN
            && Behind(at, k)
    decreases at - (TABLE_SPAN - 2 * PAGE_SIZE) * n
  {
    if AfterTables(at, n) > n * TABLE_SPAN {
      assert at > (TABLE_SPAN - 2 * PAGE_SIZE) * n by { TablesCost(at, n); }
      TablesNeededLeast(at, n + 1);
    }
  }

  /** Where the placement address ends up after the identity map. */
  function FinalPlacement(at: nat): nat {
    AfterTables(at, TablesNeeded(at, 0))
  }

  /** It adds at most two pages for every four megabytes to map. */
  lemma FinalPlacementBound(at: nat)
    ensures FinalPlacement(at) <= at + (at / (TABLE_SPAN - 2 * PAGE_SIZE) + 1) * 2 * PAGE_SIZE
  {
    TablesNeededLeast(at, 0);
    var k := TablesNeeded(at, 0);
    TablesCost(at, k);
    if k > 0 {
      TablesCost(at, k - 1);
      assert (k - 1) * TABLE_SPAN < AfterTables(at, k - 1);
    }
  }

  lemma {:induction false} TablesGrow(at: nat, m: nat, n: nat)
    requires m <= n
    ensures AfterTables(at, m) <= AfterTables(at, n)
    decreases n
  {
    if m < n {
      TablesGrow(at, m, n - 1);
    }
  }

  /** The number of tables that the pages below offset i lie in. */
  function TablesBelow(i: nat): nat {
    (i + TABLE_SPAN - 1) / TABLE_SPAN
  }

  lemma BehindStep(at: nat, n: nat)
    requires Behind(at, n) && n * TABLE_SPAN < AfterTables(at, n)
    ensures Behind(at, n + 1)
  {
    hide AfterTables;
  }

  /** While a table's span has not reached the placement address, fewer tables than needed exist. */
  lemma BelowNeeded(at: nat, n: nat)
    requires Behind(at, n)
    ensures n <= TablesNeeded(at, 0) && AfterTables(at, n) <= FinalPlacement(at)
    ensures AfterTables(at, n) <= n * TABLE_SPAN ==> n == TablesNeeded(at, 0)
  {
    TablesNeededLeast(at, 0);
    TablesGrow(at, n, TablesNeeded(at, 0));
  }
}
