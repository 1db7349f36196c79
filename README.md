# In-order delivery: a bounded byte stream and a segment reassembler

This project models the in-order delivery layer of a TCP-style receiver
(the minnow `ByteStream` and `Reassembler`) and proves properties of the
model.

- `byte_stream.dfy`, module `ByteStreams`.
  - `ByteStream` is a class with a capacity, a buffer, two lifetime
    counters (`pushed`, `popped`), a `closed` flag and an `error` flag.
  - Push keeps only what fits and drops the rest.
  - Pop of more than is buffered raises the error flag and changes
    nothing else.
  - A ghost field `written` records every byte ever accepted. The class
    invariant `Valid` ties the buffer to it: the buffer is
    `written[popped..]`, and it never exceeds the capacity.
- `pending_store.dfy`, module `PendingStore`.
  - The reassembler's ordered map of pending segments is a sequence of
    `Segment(start, data)` values sorted by key.
  - `LowerBound` and `Find` are the two map lookups the code uses.
  - `At(ps, i)` is the byte the store holds at absolute index `i`. It is
    how every contract below states contents.
- `reassembler.dfy`, module `Reassembly`.
  - `MergeSegment` is the interval union of `merge_segment`, as a loop
    that erases while iterating.
  - `Reassembler` is a class that holds a reference to the `ByteStream`
    it writes into.
    - `Insert` marks the final index, clips the segment to the window
      `[next, next + available capacity)`, merges the rest into the
      store and drains it.
    - Every path of `Insert` ends in the close check.
    - `AssembleConsecutive` is the drain loop.
    - `CountBytesPending` is the accumulator loop.

What a call must do is stated on values. `Delivered` says what an insert
leaves behind, in terms of `Arrival`: the byte the reassembler should know
at each index once a segment has arrived. The bytes written to the stream
extend the old ones by exactly the arrived bytes, and the store holds
exactly the arrived bytes past the written prefix. `Drained` is the drain
loop's invariant in the same terms.

Three behaviours of the code shape the model:

- **Touching segments are not fused.** A segment that ends exactly where
  the new one starts, or starts exactly where it ends, stays a separate
  entry (the `<=` at `src/reassembler.cc:78` and the `<` at
  `src/reassembler.cc:88`). `WellFormed` therefore allows
  `End() == start` between neighbours.
- **New data always wins.** Where a new segment and a stored one overlap,
  the merged run holds the new segment's bytes (`Overlay`).
- **The last flagged insert wins.** Each flagged insert overwrites the
  final index, so conflicting final indices are resolved in favour of the
  latest one.

## Model

| member | source | states |
|---|---|---|
| ByteStreams.Accepted | src/byte_stream.cc:10-13 | the bytes a push keeps are the leading min(\|data\|, room) bytes of data; all of data when it fits; none when room is 0 |
| ByteStreams.ByteStream.constructor | src/byte_stream.cc:6 | a new stream has the given capacity, is empty, open, error-free, and satisfies the invariant |
| ByteStreams.ByteStream.Push | src/byte_stream.cc:8-17 | buffer and history grow by exactly the accepted prefix of data and bytes_pushed by its length; with no room nothing changes; the invariant (buffer within capacity, buffer = unpopped history) is kept; popped/closed/error untouched |
| ByteStreams.ByteStream.Close | src/byte_stream.cc:19-22 | afterwards the stream is closed and nothing else changed, so closing twice is the same as closing once |
| ByteStreams.ByteStream.IsClosed | src/byte_stream.cc:24-27 | reports the closed flag, which only Close sets |
| ByteStreams.ByteStream.AvailableCapacity | src/byte_stream.cc:29-32 | free room plus buffered bytes (pushed - popped) equals the capacity, so the subtraction never underflows |
| ByteStreams.ByteStream.BytesPushed | src/byte_stream.cc:34-37 | equals the number of bytes ever accepted |
| ByteStreams.ByteStream.Peek | src/byte_stream.cc:39-42 | is the accepted bytes not yet popped, in order; its length is pushed - popped; nothing is changed |
| ByteStreams.ByteStream.Pop | src/byte_stream.cc:44-52 | popping more than is buffered raises error and leaves buffer and popped alone; otherwise the buffer loses exactly its first len bytes and popped grows by len; history, pushed and closed untouched; invariant kept |
| ByteStreams.ByteStream.IsFinished | src/byte_stream.cc:54-57 | holds exactly when the stream is closed and every accepted byte has been popped |
| ByteStreams.ByteStream.BytesBuffered | src/byte_stream.cc:59-62 | equals pushed - popped and never exceeds the capacity |
| ByteStreams.ByteStream.BytesPopped | src/byte_stream.cc:64-67 | never exceeds bytes pushed, and pushed - popped is the buffer length |
| PendingStore.LowerBound | src/reassembler.cc:73 | the first position whose key is not below the given one: every key before it is smaller, every key from it on is not |
| PendingStore.Find | src/reassembler.cc:123-124 | finds a position whose key equals the given one, or reports that no key equals it |
| PendingStore.WellFormedKeysAscending | src/reassembler.cc:68-115 | a store of non-empty, non-overlapping segments in order has strictly ascending keys, as a map does |
| PendingStore.WellFormedRemove | src/reassembler.cc:105-107 | erasing one entry keeps the store well formed |
| PendingStore.TotalLengthWithin | src/reassembler.cc:59-66 | the bytes held by non-overlapping segments inside [lo, hi) add up to at most hi - lo |
| PendingStore.OverlayWithin | src/reassembler.cc:113-114 | laying a run inside the window over a store inside the window leaves every segment inside the window |
| Reassembly.ExtendRun | src/reassembler.cc:89-104 | the run extended backwards and forwards by a touching segment spans both, and holds the run's bytes where both have one and the segment's bytes elsewhere |
| Reassembly.MergeInit | src/reassembler.cc:72-86 | after the lower_bound and predecessor step, the loop invariant holds: no skipped segment reaches the new one, and the new segment placed at the iterator gives the intended contents |
| Reassembly.MergeStep | src/reassembler.cc:88-92 | a segment the loop reaches always touches the run, so the else branch at lines 108-110 is never taken |
| Reassembly.MergeStepDone | src/reassembler.cc:92-107 | fusing the segment at the iterator into the run and erasing it keeps the loop invariant: same intended contents, ordered, and untouched segments kept |
| Reassembly.MergeFinishShape | src/reassembler.cc:111-114 | storing the run at the iterator once the loop stops gives a well-formed store |
| Reassembly.MergeFinishMembers | src/reassembler.cc:111-114 | every stored segment disjoint from the new one survives the merge, and every segment after it is an old one or a run covering the new one |
| Reassembly.MergeSegment | src/reassembler.cc:68-115 | the store stays well formed (non-overlapping, no empty segment); at every index it holds the new byte inside the new segment and the old content elsewhere; stored segments disjoint from the new one survive, and every other segment after the merge is a run covering the new one |
| Reassembly.ClippedArrival | src/reassembler.cc:26-42 | clipping a segment to the window and overlaying the clipped run gives exactly the arrival contents of the unclipped segment |
| Reassembly.DeliveredNothing | src/reassembler.cc:19-37 | a segment with no byte in the window delivers nothing: stream and store are left as they were |
| Reassembly.DiscardChangesNothing | src/reassembler.cc:19-37 | between inserts, any result Delivered allows for a segment entirely outside the window writes no byte and holds the same bytes as before at every index |
| Reassembly.DeliveredByDrain | src/reassembler.cc:44-51 | merging the run inside the window and then draining delivers what Arrival describes |
| Reassembly.DeliveredClip | src/reassembler.cc:26-42 | what is delivered for the clipped run is what is delivered for the segment as it arrived |
| Reassembly.NothingAtNext | src/reassembler.cc:122-143 | when the drain stops, either no key equals next or there is no room; either way every remaining key lies past next |
| Reassembly.DeliveredAgrees | src/reassembler.cc:44-51 | if the state agrees with a sender's byte sequence S and the segment is a piece of S, it still agrees after the insert: the written bytes are a prefix of S, and every pending byte is S's byte |
| Reassembly.DrainedInit | src/reassembler.cc:117-122 | the drain invariant holds before the first turn |
| Reassembly.DrainShape | src/reassembler.cc:129-143 | erasing the segment keyed at next and putting back its unpushed rest keeps the store well formed with no key below the new next |
| Reassembly.DrainKept | src/reassembler.cc:139-143 | the put-back rest holds the same bytes as the erased segment past the pushed part |
| Reassembly.DrainBound | src/reassembler.cc:139-143 | draining never moves a byte past the window bound |
| Reassembly.DrainWritten | src/reassembler.cc:133-137 | the pushed bytes are the bytes the store held at those indices |
| Reassembly.DrainStep | src/reassembler.cc:128-143 | one turn of the drain keeps the invariant: the written bytes extend the old ones by the store's bytes, and the store keeps every byte past them |
| Reassembly.DrainedTrans | src/reassembler.cc:122-144 | two stretches of draining compose into one |
| Reassembly.Clip | src/reassembler.cc:16-42 | the segment is discarded exactly when it starts at or past the window end, or starts before next and has nothing left once cut at both ends; otherwise the kept run is the part of data inside [next, window end) |
| Reassembly.Reassembler.CheckClose | src/reassembler.cc:147-152 | the stream is closed afterwards exactly when it was already closed or the final index is known and reached; nothing else in the stream changes |
| Reassembly.Reassembler.AssembleConsecutive | src/reassembler.cc:117-145 | the written bytes grow by exactly the bytes the store held from next on, and next grows by the same count; on exit no key equals next or there is no room; next + room is unchanged; the store stays well formed and within the window |
| Reassembly.Reassembler.AssembleOne | src/reassembler.cc:122-144 | one turn of the drain loop: the drain invariant, shrinking of the store when the loop goes on, and the exit condition when it stops |
| Reassembly.Reassembler.PushAndAdvance | src/reassembler.cc:133-137 | the chunk is appended to the stream, next advances by its length and the room shrinks by exactly as much |
| Reassembly.Reassembler.Insert | src/reassembler.cc:5-55 | a flagged insert sets the final index from the untrimmed length, an unflagged one keeps it; the stream and the store end as Delivered describes; the invariant (keys past next, non-overlapping store within the window) is kept; afterwards the stream is closed iff it was closed before or the final index is known and reached |
| Reassembly.Reassembler.Accept | src/reassembler.cc:13-51 | clipping and storing keep the invariant and deliver what Arrival describes for the segment; the stream's closed, popped and error state are untouched |
| Reassembly.Reassembler.StoreAndAssemble | src/reassembler.cc:44-51 | merging a clipped run and draining keep the invariant and deliver what Arrival describes for the run |
| Reassembly.Reassembler.ReaderPop | src/byte_stream.cc:44-52 | a pop by the reader between two inserts keeps the reassembler's invariant and the written history and closed flag; popping more than is buffered raises error and leaves buffer and popped alone, otherwise the buffer loses its first len bytes and popped grows by len; the room never shrinks |
| Reassembly.Reassembler.CountBytesPending | src/reassembler.cc:59-66 | the result is the total length of the stored segments and, between inserts, never exceeds the stream's free room |

## Left out

- `apps/webget.cc` is not part of this model. It is socket, DNS and
  console I/O with no logic beyond building a request string.
- `uint64_t` wrap-around is not modelled. Indices and lengths are
  unbounded naturals, so `first_index + data.length()` and
  `bytes_pushed_ += …` never overflow in the model.
- `set_error()` and the `Writer`/`Reader` views: their definitions are in
  headers that are not part of this model. The model uses one
  `ByteStream` object. Its `error` field is what `set_error` sets, and
  the writer and reader methods are members of that object.
- `ByteStreams.ByteStream.Peek` returns the buffer as a value. The
  lifetime and aliasing of the `string_view` the code returns are not
  modelled.
- `src/reassembler.hh` is not part of this model. The reassembler's
  constructor therefore has no source line. The model's constructor
  requires a valid stream into which nothing has been pushed yet, because
  the class invariant counts every pushed byte as delivered by the
  reassembler.
- The reassembler is assumed to be the only writer of its stream. `Valid`
  ties `next` to the number of bytes written. Pops by the reader are
  allowed between calls: they only add room (`ReaderPop`).
- `Reassembly.Reassembler.Accept`, `StoreAndAssemble`, `AssembleOne` and
  `PushAndAdvance` split `insert` and `assemble_consecutive_data` into
  smaller methods. `Reassembly.Clip` holds the clipping statements of
  `insert`. The statements and their order are those of the code.
- `PendingStore.Find` returns a position in the sorted sequence rather
  than a map iterator.
- The store is a sorted sequence, not a balanced tree. An erase or insert
  costs a sequence rebuild in the model, and complexity is not modelled.
- Reassembly.Reassembler.Insert: the contract states what is delivered
  in terms of the stream's history and the store's contents. It does not
  state the exact segmentation of the store. Touching segments may remain
  separate, as in the code, and the model does not fix which.
