# Segmented iterator (Thrust `segmented_iterator`), modelled in Dafny

Thrust's `thrust::detail::segmented_iterator` is a bidirectional iterator that
flattens a range of buckets. It visits every element of every bucket in order
and skips empty buckets. Its state is three cursors:

- the current bucket;
- the bucket-end sentinel;
- the local cursor into the current bucket.

This project models that iterator over an immutable `bs: seq<seq<T>>`.
The cursors become the indices of the datatype
`Segmented.SegmentedIterator(currentBucket, bucketsEnd, currentLocal)`.

- `flattening.dfy` (module `Flattening`): the abstraction the iterator hides.
  `Flatten(bs)` is the buckets laid end to end. `Offset(bs, b)` is the number
  of elements before bucket `b`. The file also holds lemmas about both.
- `segmented.dfy` (module `Segmented`) covers the following:
  - the state and its invariant `Valid`: either the iterator is at the end,
    or `0 <= currentLocal < |bs[currentBucket]|`, so the current bucket is
    non-empty;
  - the abstraction function `Position`, the flattened index designated by
    the cursors;
  - the range constructor and its skip loop;
  - both `make_segmented_iterator` overloads;
  - `dereference`, `equal`, and `increment` with its skip loop;
  - `decrement` with its skip loop, both corrected and as written.

  Each skip loop is a recursive function. Its measure is the distance of the
  bucket cursor to the sentinel, or to the first bucket for `decrement`.
- `traversal.dfy` (module `Traversal`) holds the laws that relate operations:
  - equality means the same position;
  - the increment/decrement round-trips hold;
  - the as-written `decrement` breaks the round-trip;
  - a begin-to-end walk reads `Flatten` of the bucket range.

In the source, the accessors `current_bucket()`, `buckets_end()` and
`current_local()` return the three cursors. Here they are the datatype's
fields. The copy constructor is Dafny's value copy of the datatype.

## Model

| member | source | states |
|---|---|---|
| `Segmented.SkipEmpty` | thrust/iterator/detail/segmentation/segmented_iterator.inl:48-52 | The constructor's skip loop stops on the first non-empty bucket at or after the start, or on the sentinel if there is none. Every bucket it passes is empty. It terminates because the distance from the bucket to the sentinel decreases. |
| `Segmented.Construct` | thrust/iterator/detail/segmentation/segmented_iterator.inl:41-58 | A range-constructed iterator satisfies the invariant. It is either at the end or on local index 0 of the first non-empty bucket at or after `first`. Its flattened position is the start of the range. It is at the end iff the range `[first, last)` holds no element, so an empty or all-empty range gives an end iterator. |
| `Segmented.MakeSegmentedIterator` | thrust/iterator/detail/segmentation/segmented_iterator.inl:153-158 | The pair factory gives a valid iterator at the start of `[first, last)`. It equals the end iterator `[last, last)` iff the range holds no element. |
| `Segmented.MakeFromRange` | thrust/iterator/detail/segmentation/segmented_iterator.inl:160-165 | The range factory gives a valid iterator whose sentinel is the end of the whole range and whose flattened position is 0. It is at the end iff the buckets hold no element. |
| `Segmented.Dereference` | thrust/iterator/detail/segmentation/segmented_iterator.inl:71-77 | Dereferencing needs a valid, non-end iterator. It yields the element at the iterator's position in the concatenation of the buckets. |
| `Segmented.Equal` | thrust/iterator/detail/segmentation/segmented_iterator.inl:80-88 | Equal iterators share the sentinel and the current bucket. Two end iterators with the same sentinel are equal, whatever their local cursors. Away from the end, equality is equality of the whole state. |
| `Segmented.IncrementLoop` | thrust/iterator/detail/segmentation/segmented_iterator.inl:98-109 | The increment skip loop never changes the designated position. It ends in a valid state and only moves forward. It leaves a bucket only when the local cursor is at that bucket's end, and every bucket it skips is empty. It terminates because the bucket index rises toward the sentinel. |
| `Segmented.Increment` | thrust/iterator/detail/segmentation/segmented_iterator.inl:91-110 | Incrementing a valid non-end iterator preserves the invariant and the sentinel. It raises the flattened position by exactly 1. Within the same bucket it steps the local cursor by one. Any bucket it passes over is empty. |
| `Segmented.DecrementLoop` | thrust/iterator/detail/segmentation/segmented_iterator.inl:117-122 | The decrement skip loop steps back only from the end or from a bucket's beginning. It stops on a bucket whose local cursor is strictly after its beginning. It keeps the designated position, and every bucket it steps back over is empty. |
| `Segmented.Decrement` | thrust/iterator/detail/segmentation/segmented_iterator.inl:113-126 | Decrement (corrected, as the comment at line 124 intends) needs a valid iterator that is not on the first element. The result is a valid non-end iterator one flattened position earlier. Any bucket it skips back over is empty. |
| `Segmented.DecrementAsWritten` | thrust/iterator/detail/segmentation/segmented_iterator.inl:124-125 | The literal final `--m_current_bucket` gives a result one bucket before the corrected decrement's bucket. Its local cursor is one past the corrected decrement's local cursor. |
| `Traversal.EqualIffSamePosition` | thrust/iterator/detail/segmentation/segmented_iterator.inl:84-87 | Take two valid iterators with the same sentinel. They are equal iff they designate the same flattened index. |
| `Traversal.DecrementIncrement` | thrust/iterator/detail/segmentation/segmented_iterator.inl:91-126 | Decrement after increment restores the exact `(bucket, end, local)` state of any valid non-end iterator. |
| `Traversal.IncrementDecrement` | thrust/iterator/detail/segmentation/segmented_iterator.inl:91-126 | Increment after decrement returns to an equal iterator. It returns to the identical state unless it started at the end. |
| `Traversal.DecrementAsWrittenBreaksRoundTrip` | thrust/iterator/detail/segmentation/segmented_iterator.inl:124-125 | With the literal line 125, decrement after increment always lands one bucket before the starting bucket, for every valid non-end iterator. So the round-trip never holds. |
| `Traversal.DecrementAsWrittenCounterexample` | thrust/iterator/detail/segmentation/segmented_iterator.inl:118-125 | Over `[[7], [8, 9]]`, increment from 8 reaches 9. The literal decrement then moves the bucket cursor to bucket 0, while the local cursor still points at 9 in bucket 1. So `*it` is still 9, and the iterator is not the one on 8 it started from. The corrected decrement gives back 8. |
| `Traversal.Collect` | thrust/iterator/detail/segmentation/segmented_iterator.inl:41-110 | Walk from the constructed begin to the end iterator, dereferencing and then incrementing at each step. The walk reads exactly the concatenation of the buckets in `[first, last)`, in order. Empty buckets contribute nothing. |

## Findings

| source | as written | input that shows it | evidently intended | confidence | as-written member | corrected member |
|---|---|---|---|---|---|---|
| thrust/iterator/detail/segmentation/segmented_iterator.inl:124-125 | After the skip loop, `decrement` executes `--m_current_bucket` | buckets `[[7], [8, 9]]`, iterator on 8 (bucket 1, local 0): increment reaches 9 (bucket 1, local 1). Decrement then moves the bucket cursor to bucket 0, while the local cursor still points at 9, so `*it` is still 9 and the iterator is not equal to the one on 8 | `--m_current_local`, as the comment on line 124 says, so that decrement undoes increment | high; derived from the code and not executed | `Segmented.DecrementAsWritten` (shown by `Traversal.DecrementAsWrittenBreaksRoundTrip`, `Traversal.DecrementAsWrittenCounterexample`) | `Segmented.Decrement` (proved by `Traversal.DecrementIncrement`, `Traversal.IncrementDecrement`) |

## Left out

- Default constructor (lines 31-38): its value-initialized state designates no bucket range and has no traversal target.
- Copy constructor and accessors (lines 61-68, 129-151): they are not separate members. The datatype's fields are the accessors, and copying a datatype value is the copy constructor.
- Template genericity over bucket and local cursor types: cursors are modelled as indices into `seq<seq<T>>`. The range helpers `begin`, `end`, `empty` and `range_iterator` are not part of this model. They become `0`, `|s|`, `|s| == 0` and `nat` respectively.
- The iterator-facade base in `segmented_iterator_base.h`, which supplies `operator++`, `operator*` and the rest, is not part of this model.
- Local cursor of an end iterator: after range construction it is left unset, and the model puts 0 there. `Equal` never reads it, and neither does any operation before reseeding it.
- `Segmented.Decrement`: the precondition "not on the first element" is stated against the whole bucket sequence `bs` (flattened position above 0). The iterator does not remember the start of its range, just as the source's cursors do not.
- Segmented.DecrementAsWritten: the local offset in the returned pair belongs to bucket `.0 + 1`, not to bucket `.0`. The source's local iterator stays tied to that bucket's storage while the bucket cursor moves. An index relative to the current bucket cannot express that, so the pair is not a `SegmentedIterator`.
- Non-owning reference semantics, iterator invalidation under mutation, threads and GPU execution: the buckets are an immutable value passed to every operation.
