/** The allocator behind `cJSON_malloc` and `cJSON_free`, which never fails
    here: a ledger of the blocks that are allocated and not yet freed, by the
    library or by its callers. */
module Memory {
  import opened Bytes

  class Heap {
    ghost var live: set<object>

    constructor ()
      ensures live == {}
    {
      live := {};
    }

    method Malloc(n: nat) returns (a: array<Byte>)
      modifies this
      ensures fresh(a) && a.Length == n
      ensures live == old(live) + {a}
    {
      a := new Byte[n];
      live := live + {a};
    }

    // Freeing asks for a live block, so nothing is ever freed twice; and what a
    // freed block holds is anybody's guess, so nothing depends on it any more.
    method Free(ghost o: object)
      requires o in live
      modifies this, o
      ensures live == old(live) - {o}
    {
      live := live - {o};
    }

    // Enters a block that was just allocated.
    method Own(ghost o: object)
      modifies this
      ensures live == old(live) + {o}
    {
      live := live + {o};
    }
  }
}
