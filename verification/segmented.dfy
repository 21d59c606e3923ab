/** The segmented (flattening) iterator: one bidirectional cursor over every
    element of a sequence of buckets, skipping empty buckets.

    The buckets are the immutable `bs: seq<seq<T>>`. The iterator's bucket
    cursor, bucket-end sentinel and local cursor become indices into `bs`
    and into the current bucket. The iterator does not own `bs`: every
    operation is handed the buckets it walks. */
module Segmented {
  import opened Flattening

  /** The state triple of the iterator. `currentLocal` only means something
      while `currentBucket != bucketsEnd`. The fields are the accessors
      `current_bucket`, `buckets_end` and `current_local`; copying the value
      is the copy constructor. */
  datatype SegmentedIterator = SegmentedIterator(currentBucket: nat, bucketsEnd: nat, currentLocal: nat)
  {
    /** The terminal state: the bucket cursor has reached the sentinel. */
    predicate AtEnd() {
      currentBucket == bucketsEnd
    }
  }

  /** Every cursor points into `bs`; the local cursor may sit on its
      bucket's end, a state the skip loops pass through. */
  predicate WellFormed<T>(bs: seq<seq<T>>, it: SegmentedIterator) {
    && it.bucketsEnd <= |bs|
    && it.currentBucket <= it.bucketsEnd
    && (!it.AtEnd() ==> it.currentLocal <= |bs[it.currentBucket]|)
  }

  /** The iterator's invariant: at the end, or on a real element of a
      (therefore non-empty) bucket. */
  predicate Valid<T>(bs: seq<seq<T>>, it: SegmentedIterator) {
    && WellFormed(bs, it)
    && (!it.AtEnd() ==> it.currentLocal < |bs[it.currentBucket]|)
  }

  /** The abstraction function: the index into `Flatten(bs)` the cursors
      designate. At the end it is the number of elements before the sentinel. */
  function Position<T>(bs: seq<seq<T>>, it: SegmentedIterator): nat
    requires WellFormed(bs, it)
  {
    Offset(bs, it.currentBucket) + (if it.AtEnd() then 0 else it.currentLocal)
  }

  /** The skip loop of the range constructor: the first non-empty bucket at
      or after `b`, or `e` when there is none. */
  function SkipEmpty<T>(bs: seq<seq<T>>, b: nat, e: nat): (r: nat)
    requires b <= e <= |bs|
    ensures b <= r <= e
    ensures forall k :: b <= k < r ==> |bs[k]| == 0
    ensures r < e ==> |bs[r]| > 0
    decreases e - b
  {
    if b != e && |bs[b]| == 0 then SkipEmpty(bs, b + 1, e) else b
  }

  /** Construction from the bucket range `[first, last)`: skip the leading
      empty buckets, then seed the local cursor at the start of the bucket
      found. When none is found the local cursor is left unset, here 0. */
  function Construct<T>(bs: seq<seq<T>>, first: nat, last: nat): (r: SegmentedIterator)
    requires first <= last <= |bs|
    ensures Valid(bs, r) && r.bucketsEnd == last
    ensures first <= r.currentBucket
    ensures forall k :: first <= k < r.currentBucket ==> |bs[k]| == 0
    ensures !r.AtEnd() ==> r.currentLocal == 0
    ensures Position(bs, r) == Offset(bs, first)
    ensures r.AtEnd() <==> Flatten(bs[first..last]) == []
  {
    var b := SkipEmpty(bs, first, last);
    OffsetEmptyRun(bs, first, b);
    OffsetEmptyRun(bs, first, last);
    FlattenSplit(bs, first, last);
    SegmentedIterator(b, last, 0)
  }

  /** `make_segmented_iterator(first, last)`: the iterator over `[first, last)`.
      It equals the end iterator `[last, last)` exactly when the range holds
      no element. */
  function MakeSegmentedIterator<T>(bs: seq<seq<T>>, first: nat, last: nat): (r: SegmentedIterator)
    requires first <= last <= |bs|
    ensures Valid(bs, r) && r.bucketsEnd == last
    ensures Position(bs, r) == Offset(bs, first)
    ensures Equal(r, Construct(bs, last, last)) <==> Flatten(bs[first..last]) == []
  {
    Construct(bs, first, last)
  }

  /** `make_segmented_iterator(rng)`: the iterator over the whole range `bs`,
      starting at flattened index 0. */
  function MakeFromRange<T>(bs: seq<seq<T>>): (r: SegmentedIterator)
    ensures Valid(bs, r) && r.bucketsEnd == |bs|
    ensures Position(bs, r) == 0
    ensures r.AtEnd() <==> Flatten(bs) == []
  {
    assert bs[0..|bs|] == bs;
    Construct(bs, 0, |bs|)
  }

  /** The element under the cursors: the one at the iterator's position in
      the flattened buckets. Undefined at the end. */
  function Dereference<T>(bs: seq<seq<T>>, it: SegmentedIterator): (r: T)
    requires Valid(bs, it) && !it.AtEnd()
    ensures Position(bs, it) < |Flatten(bs[..it.bucketsEnd])|
    ensures r == Flatten(bs[..it.bucketsEnd])[Position(bs, it)]
  {
    FlattenAt(bs, it.currentBucket, it.currentLocal, it.bucketsEnd);
    bs[it.currentBucket][it.currentLocal]
  }

  /** Iterator equality: same sentinel, same bucket, and the local cursors
      agree unless both are at the end, where they are never read. */
  function Equal(x: SegmentedIterator, y: SegmentedIterator): (r: bool)
    ensures r ==> x.bucketsEnd == y.bucketsEnd && x.currentBucket == y.currentBucket
    ensures x.AtEnd() && y.AtEnd() && x.bucketsEnd == y.bucketsEnd ==> r
    ensures !x.AtEnd() ==> (r <==> x == y)
  {
    && x.bucketsEnd == y.bucketsEnd
    && x.currentBucket == y.currentBucket
    && (x.currentBucket == x.bucketsEnd || x.currentLocal == y.currentLocal)
  }

  /** The skip loop of `increment`, entered with the local cursor already
      stepped: while the local cursor is at its bucket's end, move to the
      next bucket and stop at the sentinel, else restart at that bucket's
      beginning. Stopping at the sentinel leaves the local cursor on the
      end of the last bucket passed. */
  function IncrementLoop<T>(bs: seq<seq<T>>, it: SegmentedIterator): (r: SegmentedIterator)
    requires WellFormed(bs, it) && !it.AtEnd()
    ensures Valid(bs, r) && r.bucketsEnd == it.bucketsEnd
    ensures Position(bs, r) == Position(bs, it)
    ensures it.currentBucket <= r.currentBucket
    ensures r.currentBucket == it.currentBucket ==> r == it
    ensures r.currentBucket > it.currentBucket ==> it.currentLocal == |bs[it.currentBucket]|
    ensures forall k :: it.currentBucket < k < r.currentBucket ==> |bs[k]| == 0
    decreases it.bucketsEnd - it.currentBucket
  {
    if it.currentLocal == |bs[it.currentBucket]| then
      var b := it.currentBucket + 1;
      FlattenStep(bs, it.currentBucket);
      if b == it.bucketsEnd then it.(currentBucket := b)
      else IncrementLoop(bs, SegmentedIterator(b, it.bucketsEnd, 0))
    else it
  }

  /** `++it`: consume exactly one element, then skip the exhausted bucket
      and every empty bucket after it. Undefined at the end. */
  function Increment<T>(bs: seq<seq<T>>, it: SegmentedIterator): (r: SegmentedIterator)
    requires Valid(bs, it) && !it.AtEnd()
    ensures Valid(bs, r) && r.bucketsEnd == it.bucketsEnd
    ensures Position(bs, r) == Position(bs, it) + 1
    ensures it.currentBucket <= r.currentBucket
    ensures r.currentBucket == it.currentBucket ==> r.currentLocal == it.currentLocal + 1
    ensures forall k :: it.currentBucket < k < r.currentBucket ==> |bs[k]| == 0
  {
    IncrementLoop(bs, it.(currentLocal := it.currentLocal + 1))
  }

  /** The skip loop of `decrement`: while at the end or at the beginning of
      the current bucket, step the bucket cursor back and put the local
      cursor on that bucket's end. It stops on a bucket whose local cursor
      can step back; the position it designates is unchanged. */
  function DecrementLoop<T>(bs: seq<seq<T>>, it: SegmentedIterator): (r: SegmentedIterator)
    requires WellFormed(bs, it) && Position(bs, it) > 0
    ensures r.bucketsEnd == it.bucketsEnd && r.currentBucket < r.bucketsEnd
    ensures 0 < r.currentLocal <= |bs[r.currentBucket]|
    ensures Offset(bs, r.currentBucket) + r.currentLocal == Position(bs, it)
    ensures r.currentBucket <= it.currentBucket
    ensures r.currentBucket == it.currentBucket ==> r == it
    ensures r.currentBucket < it.currentBucket ==> it.AtEnd() || it.currentLocal == 0
    ensures forall k :: r.currentBucket < k < it.currentBucket ==> |bs[k]| == 0
    decreases it.currentBucket
  {
    if it.AtEnd() || it.currentLocal == 0 then
      assert it.currentBucket > 0;
      var b := it.currentBucket - 1;
      FlattenStep(bs, b);
      DecrementLoop(bs, SegmentedIterator(b, it.bucketsEnd, |bs[b]|))
    else it
  }

  /** `--it`: move to the previous element, crossing bucket boundaries and
      skipping empty buckets; reachable from the end. The local cursor is
      stepped back after the skip loop. Undefined on the first element of
      the whole bucket sequence. */
  function Decrement<T>(bs: seq<seq<T>>, it: SegmentedIterator): (r: SegmentedIterator)
    requires Valid(bs, it) && Position(bs, it) > 0
    ensures Valid(bs, r) && !r.AtEnd() && r.bucketsEnd == it.bucketsEnd
    ensures Position(bs, r) + 1 == Position(bs, it)
    ensures r.currentBucket <= it.currentBucket
    ensures r.currentBucket == it.currentBucket ==> r.currentLocal + 1 == it.currentLocal
    ensures forall k :: r.currentBucket < k < it.currentBucket ==> |bs[k]| == 0
  {
    var s := DecrementLoop(bs, it);
    s.(currentLocal := s.currentLocal - 1)
  }

  /** `--it` with the final statement as it stands in the source: after the
      skip loop it steps the bucket cursor back once more instead of the
      local cursor. The bucket may fall before the first bucket, hence `int`.
      The local offset still belongs to bucket `.0 + 1`, the one the skip
      loop stopped on. */
  function DecrementAsWritten<T>(bs: seq<seq<T>>, it: SegmentedIterator): (r: (int, nat))
    requires Valid(bs, it) && Position(bs, it) > 0
    ensures r.0 + 1 == Decrement(bs, it).currentBucket
    ensures r.1 == Decrement(bs, it).currentLocal + 1
  {
    var s := DecrementLoop(bs, it);
    (s.currentBucket - 1, s.currentLocal)
  }
}
