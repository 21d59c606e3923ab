/** The abstraction a segmented iterator hides: the buckets laid end to end.
    A position inside the bucket sequence `bs` is identified with an index
    into `Flatten(bs)`; `Offset(bs, b)` is the flattened index at which
    bucket `b` starts. */
module Flattening {

  /** All elements of all buckets, bucket by bucket, in order. */
  function Flatten<T>(bs: seq<seq<T>>): seq<T>
    decreases |bs|
  {
    if |bs| == 0 then [] else Flatten(bs[..|bs| - 1]) + bs[|bs| - 1]
  }

  /** Number of elements held by the buckets before bucket `b`. */
  function Offset<T>(bs: seq<seq<T>>, b: nat): nat
    requires b <= |bs|
  {
    |Flatten(bs[..b])|
  }

  /** Adding one more bucket to a prefix appends exactly that bucket. */
  lemma FlattenStep<T>(bs: seq<seq<T>>, b: nat)
    requires b < |bs|
    ensures Flatten(bs[..b + 1]) == Flatten(bs[..b]) + bs[b]
    ensures Offset(bs, b + 1) == Offset(bs, b) + |bs[b]|
  {
    assert bs[..b + 1][..b] == bs[..b];
  }

  /** Flattening distributes over concatenation of bucket sequences. */
  lemma {:induction false} FlattenAppend<T>(a: seq<seq<T>>, c: seq<seq<T>>)
    ensures Flatten(a + c) == Flatten(a) + Flatten(c)
    decreases |c|
  {
    if |c| == 0 {
      assert a + c == a;
    } else {
      var c' := c[..|c| - 1];
      assert (a + c)[..|a + c| - 1] == a + c';
      FlattenAppend(a, c');
    }
  }

  /** The buckets of a prefix split at `lo` flatten to the two halves. */
  lemma FlattenSplit<T>(bs: seq<seq<T>>, lo: nat, hi: nat)
    requires lo <= hi <= |bs|
    ensures Flatten(bs[..hi]) == Flatten(bs[..lo]) + Flatten(bs[lo..hi])
    ensures Offset(bs, hi) == Offset(bs, lo) + |Flatten(bs[lo..hi])|
  {
    assert bs[..hi] == bs[..lo] + bs[lo..hi];
    FlattenAppend(bs[..lo], bs[lo..hi]);
  }

  /** Every element of bucket `b` precedes the start of any later bucket. */
  lemma OffsetPastBucket<T>(bs: seq<seq<T>>, b: nat, hi: nat)
    requires b < hi <= |bs|
    ensures Offset(bs, b) + |bs[b]| <= Offset(bs, hi)
  {
    FlattenStep(bs, b);
    FlattenSplit(bs, b + 1, hi);
  }

  /** A run of buckets adds no elements exactly when every bucket in it is empty. */
  lemma {:induction false} OffsetEmptyRun<T>(bs: seq<seq<T>>, lo: nat, hi: nat)
    requires lo <= hi <= |bs|
    ensures (forall k :: lo <= k < hi ==> |bs[k]| == 0) <==> Offset(bs, lo) == Offset(bs, hi)
    decreases hi - lo
  {
    if lo < hi {
      FlattenStep(bs, lo);
      FlattenSplit(bs, lo + 1, hi);
      OffsetEmptyRun(bs, lo + 1, hi);
    }
  }

  /** Element `l` of bucket `b` sits at flattened index `Offset(bs, b) + l`. */
  lemma FlattenAt<T>(bs: seq<seq<T>>, b: nat, l: nat, hi: nat)
    requires b < hi <= |bs| && l < |bs[b]|
    ensures Offset(bs, b) + l < Offset(bs, hi)
    ensures Flatten(bs[..hi])[Offset(bs, b) + l] == bs[b][l]
  {
    FlattenStep(bs, b);
    FlattenSplit(bs, b + 1, hi);
  }
}
