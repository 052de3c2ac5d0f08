/** Slicing a pool into consecutive batches, as the loop
    `for i in range(0, len(pool), batch_size): pool[i:i + batch_size]` does. */
module Batching {
  import opened Seqs

  /** The batches of `pool`, front to back. Every batch is non-empty, none is
      larger than `size`, all but the last are full, and together, in order,
      they are exactly the pool. */
  function Batches<T>(pool: seq<T>, size: nat): (bs: seq<seq<T>>)
    requires size > 0
    ensures Flatten(bs) == pool
    ensures forall k :: 0 <= k < |bs| ==> 0 < |bs[k]| <= size
    ensures forall k :: 0 <= k < |bs| - 1 ==> |bs[k]| == size
    ensures |bs| == 0 <==> |pool| == 0
    decreases |pool|
  {
    if |pool| == 0 then []
    else if |pool| <= size then [pool]
    else [pool[..size]] + Batches(pool[size..], size)
  }

  /** There are ceil(|pool| / size) batches, stated without division: the
      last one holds at least one element and at most `size`. */
  lemma {:induction false} BatchCount<T>(pool: seq<T>, size: nat)
    requires size > 0
    ensures |Batches(pool, size)| > 0 ==>
      (|Batches(pool, size)| - 1) * size < |pool| <= |Batches(pool, size)| * size
    decreases |pool|
  {
    if |pool| > size {
      BatchCount(pool[size..], size);
      var r := |Batches(pool[size..], size)|;
      assert |Batches(pool, size)| == r + 1;
      assert (r + 1) * size == r * size + size;
      assert r * size == (r - 1) * size + size;
    }
  }

  /** Every element of a batch is an element of the pool it was cut from. */
  lemma BatchMember<T>(pool: seq<T>, size: nat, k: nat, x: T)
    requires size > 0
    requires k < |Batches(pool, size)| && x in Batches(pool, size)[k]
    ensures x in pool
  {
    var bs := Batches(pool, size);
    FlattenAppend(bs[..k], bs[k..]);
    assert bs == bs[..k] + bs[k..];
    assert Flatten(bs[k..]) == bs[k] + Flatten(bs[k + 1..]);
  }

  /** A pool of at least two elements, cut into batches of at least two,
      yields fewer batches than elements. */
  lemma FewerBatches<T>(pool: seq<T>, size: nat)
    requires size > 1 && |pool| > 1
    ensures |Batches(pool, size)| < |pool|
  {
    BatchCount(pool, size);
    var n, b := |pool|, |Batches(pool, size)|;
    assert (b - 1) * size < n;
  }
}
