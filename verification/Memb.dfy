/** The block allocator (memb.c). A pointer is the index of a block, or None for NULL. */
module Memb {
  import opened Words

  class Pool {
    const count: array<u8>

    /** memb_init. */
    constructor (num: nat)
      ensures count.Length == num && fresh(count) && forall k | 0 <= k < num :: count[k] == 0
    {
      count := new u8[num](_ => 0);
    }

    /** memb_alloc: the first unused block, NULL exactly when there is none. */
    method Alloc() returns (p: Option<nat>)
      modifies count
      ensures p == None <==> forall k | 0 <= k < count.Length :: old(count[k]) != 0
      ensures p == None ==> forall k | 0 <= k < count.Length :: count[k] == old(count[k])
      ensures p.Some? ==> p.value < count.Length && old(count[p.value]) == 0 && count[p.value] == 1
      ensures p.Some? ==> forall k | 0 <= k < p.value :: old(count[k]) != 0
      ensures p.Some? ==> forall k | 0 <= k < count.Length && k != p.value :: count[k] == old(count[k])
    {
      var i := 0;
      while i < count.Length
        invariant 0 <= i <= count.Length && forall k | 0 <= k < count.Length :: count[k] == old(count[k])
        invariant forall k | 0 <= k < i :: count[k] != 0
      {
        if count[i] == 0 {
          count[i] := count[i] + 1;
          return Some(i);
        }
        i := i + 1;
      }
      return None;
    }

    /** memb_free: the new count of the block, or -1 for a pointer outside the pool. */
    method Free(p: Option<nat>) returns (r: int)
      modifies count
      ensures r == -1 <==> p == None || p.value >= count.Length
      ensures r == -1 ==> forall k | 0 <= k < count.Length :: count[k] == old(count[k])
      ensures r != -1 ==> r == count[p.value] && count[p.value] == (if old(count[p.value]) > 0 then old(count[p.value]) - 1 else 0)
      ensures r != -1 ==> forall k | 0 <= k < count.Length && k != p.value :: count[k] == old(count[k])
    {
      var i := 0;
      while i < count.Length
        invariant 0 <= i <= count.Length && forall k | 0 <= k < count.Length :: count[k] == old(count[k])
        invariant p.Some? ==> p.value >= i
      {
        if p == Some(i) {
          if count[i] > 0 {
            count[i] := count[i] - 1;
          }
          return count[i];
        }
        i := i + 1;
      }
      return -1;
    }
  }
}
