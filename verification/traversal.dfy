/** Laws relating the segmented iterator's operations to each other and to
    the flattened buckets: equality is equality of position, increment and
    decrement undo each other, and a begin-to-end walk reads the
    concatenation of the buckets. */
module Traversal {
  import opened Flattening
  import opened Segmented

  /** Two iterators with the same sentinel are equal exactly when they
      designate the same flattened index. */
  lemma EqualIffSamePosition<T>(bs: seq<seq<T>>, x: SegmentedIterator, y: SegmentedIterator)
    requires Valid(bs, x) && Valid(bs, y) && x.bucketsEnd == y.bucketsEnd
    ensures Equal(x, y) <==> Position(bs, x) == Position(bs, y)
  {
    if x.currentBucket < y.currentBucket {
      OffsetPastBucket(bs, x.currentBucket, y.currentBucket);
    } else if y.currentBucket < x.currentBucket {
      OffsetPastBucket(bs, y.currentBucket, x.currentBucket);
    }
  }

  /** Decrement after increment restores the iterator exactly. */
  lemma DecrementIncrement<T>(bs: seq<seq<T>>, it: SegmentedIterator)
    requires Valid(bs, it) && !it.AtEnd()
    ensures Position(bs, Increment(bs, it)) > 0
    ensures Decrement(bs, Increment(bs, it)) == it
  {
    var back := Decrement(bs, Increment(bs, it));
    EqualIffSamePosition(bs, back, it);
  }

  /** Increment after decrement returns to an equal iterator, and to the
      very same state unless it started at the end, whose local cursor is
      never read. */
  lemma IncrementDecrement<T>(bs: seq<seq<T>>, it: SegmentedIterator)
    requires Valid(bs, it) && Position(bs, it) > 0
    ensures Equal(Increment(bs, Decrement(bs, it)), it)
    ensures !it.AtEnd() ==> Increment(bs, Decrement(bs, it)) == it
  {
    var forth := Increment(bs, Decrement(bs, it));
    EqualIffSamePosition(bs, forth, it);
  }

  /** With the source's final `--m_current_bucket`, decrement after
      increment never lands back on the bucket it started from. */
  lemma DecrementAsWrittenBreaksRoundTrip<T>(bs: seq<seq<T>>, it: SegmentedIterator)
    requires Valid(bs, it) && !it.AtEnd()
    ensures Position(bs, Increment(bs, it)) > 0
    ensures DecrementAsWritten(bs, Increment(bs, it)).0 + 1 == it.currentBucket
  {
    DecrementIncrement(bs, it);
  }

  /** A concrete case: over `[[7], [8, 9]]`, step from 8 to 9 and back. The
      as-written decrement moves the bucket cursor to bucket 0 while the
      local cursor still points at 9 in bucket 1, so `*it` is still 9 and
      the iterator is not the one on 8 it started from. */
  lemma DecrementAsWrittenCounterexample()
    ensures var bs: seq<seq<int>> := [[7], [8, 9]];
            var it := SegmentedIterator(1, 2, 0);
            && Valid(bs, it) && Dereference(bs, it) == 8
            && Increment(bs, it) == SegmentedIterator(1, 2, 1)
            && Position(bs, Increment(bs, it)) > 0
            && DecrementAsWritten(bs, Increment(bs, it)) == (0, 1)
            && DecrementAsWritten(bs, Increment(bs, it)).0 != it.currentBucket
            && bs[DecrementAsWritten(bs, Increment(bs, it)).0 + 1][DecrementAsWritten(bs, Increment(bs, it)).1] == 9
            && Decrement(bs, Increment(bs, it)) == it
  {
  }

  /** One step of the client loop below: the element read is the next one of
      the flattened buckets, and the position stays within them. */
  lemma CollectStep<T>(bs: seq<seq<T>>, it: SegmentedIterator, lo: nat)
    requires Valid(bs, it) && !it.AtEnd() && lo <= Position(bs, it)
    ensures Position(bs, Increment(bs, it)) <= |Flatten(bs[..it.bucketsEnd])|
    ensures Flatten(bs[..it.bucketsEnd])[lo..Position(bs, Increment(bs, it))]
         == Flatten(bs[..it.bucketsEnd])[lo..Position(bs, it)] + [Dereference(bs, it)]
  {
    var x := Dereference(bs, it);
    var all := Flatten(bs[..it.bucketsEnd]);
    var p := Position(bs, it);
    assert p < |all| && x == all[p];
    assert all[lo..p + 1] == all[lo..p] + [all[p]];
  }

  /** The client loop `for (it = begin; it != end; ++it) out.push_back(*it)` over
      the bucket range `[first, last)`: it reads exactly the concatenation of
      those buckets, in order, empty buckets contributing nothing. */
  method Collect<T>(bs: seq<seq<T>>, first: nat, last: nat) returns (out: seq<T>)
    requires first <= last <= |bs|
    ensures out == Flatten(bs[first..last])
  {
    ghost var all := Flatten(bs[..last]);
    ghost var lo := Offset(bs, first);
    var it := MakeSegmentedIterator(bs, first, last);
    var end := MakeSegmentedIterator(bs, last, last);
    FlattenSplit(bs, first, last);
    out := [];
    while !Equal(it, end)
      invariant Valid(bs, it) && it.bucketsEnd == last
      invariant lo <= Position(bs, it) <= |all|
      invariant out == all[lo..Position(bs, it)]
      decreases |all| - Position(bs, it)
    {
      var x := Dereference(bs, it);
      CollectStep(bs, it, lo);
      out := out + [x];
      it := Increment(bs, it);
    }
    EqualIffSamePosition(bs, it, end);
    assert all[lo..|all|] == Flatten(bs[first..last]);
  }
}
