/** The growable acklist of IKCPCB: an array of (sn, ts) pairs laid out flat, doubled when full. */
module AckLists {
  import opened Serial
  import opened Types

  predicate PowerOfTwo(n: nat) {
    n == 1 || (n > 1 && n % 2 == 0 && PowerOfTwo(n / 2))
  }

  lemma {:induction false} Doubled(n: nat)
    requires PowerOfTwo(n)
    ensures PowerOfTwo(2 * n)
  {
    assert 2 * n / 2 == n;
  }

  /** The capacity ikcp_ack_push allocates: doubled from 8 until the request fits. */
  method NextBlock(newsize: nat) returns (newblock: nat)
    ensures newblock >= 8 && newblock >= newsize && PowerOfTwo(newblock)
    ensures newblock == 8 || newblock < 2 * newsize
  {
    newblock := 8;
    while newblock < newsize
      invariant newblock >= 8 && PowerOfTwo(newblock)
      invariant newblock == 8 || newblock < 2 * newsize
    {
      Doubled(newblock);
      newblock := 2 * newblock;
    }
  }

  class AckList {
    var list: array<u32>
    var count: nat
    var block: nat

    /** The capacity is zero or a power of two, and never less than the count. */
    ghost predicate Valid()
      reads this
    {
      count <= block && list.Length == 2 * block && (block == 0 || PowerOfTwo(block))
    }

    ghost function Contents(): (r: seq<AckItem>)
      requires Valid()
      reads this, list
      ensures |r| == count
    {
      seq(count, i requires 0 <= i < count && Valid() reads this, list => AckItem(list[2 * i], list[2 * i + 1]))
    }

    constructor ()
      ensures Valid() && Contents() == [] && fresh(list)
    {
      list := new u32[0];
      count, block := 0, 0;
    }

    /** The allocation branch of ikcp_ack_push. */
    method Grow(newsize: nat)
      requires Valid() && block < newsize
      modifies this`list, this`block
      ensures Valid() && fresh(list) && block >= newsize && Contents() == old(Contents())
    {
      var newblock := NextBlock(newsize);
      var bigger := new u32[newblock * 2];
      var x := 0;
      while x < count
        modifies bigger
        invariant 0 <= x <= count
        invariant forall i :: 0 <= i < 2 * x ==> bigger[i] == list[i]
      {
        bigger[x * 2] := list[x * 2];
        bigger[x * 2 + 1] := list[x * 2 + 1];
        x := x + 1;
      }
      list := bigger;
      block := newblock;
    }

    /** ikcp_ack_push. */
    method Push(sn: u32, ts: u32)
      requires Valid()
      modifies this, list
      ensures Valid() && (list == old(list) || fresh(list))
      ensures Contents() == old(Contents()) + [AckItem(sn, ts)]
    {
      if count + 1 > block {
        Grow(count + 1);
      }
      list[count * 2] := sn;
      list[count * 2 + 1] := ts;
      count := count + 1;
    }

    /** ikcp_ack_get. */
    method Get(p: nat) returns (sn: u32, ts: u32)
      requires Valid() && p < count
      ensures AckItem(sn, ts) == Contents()[p]
    {
      sn, ts := list[p * 2], list[p * 2 + 1];
    }

    /** `kcp->ackcount = 0`; the block is kept. */
    method Clear()
      requires Valid()
      modifies this`count
      ensures Valid() && Contents() == []
    {
      count := 0;
    }
  }
}
