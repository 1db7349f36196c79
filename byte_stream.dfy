/** A fixed-capacity FIFO of bytes with a writer side (push, close) and a
    reader side (peek, pop).  minnow's Writer and Reader views are two
    groups of members of one ByteStream object.
 */
module ByteStreams {

  type Byte = bv8

  function Min(a: nat, b: nat): (r: nat) {
    if a <= b then a else b
  }

  /** The bytes of `data` that a push keeps when `room` bytes are free:
      the leading min(|data|, room) bytes; the rest is silently dropped. */
  function Accepted(data: seq<Byte>, room: nat): (kept: seq<Byte>)
    ensures |kept| == Min(|data|, room)
    ensures kept == data[..|kept|]
    ensures |data| <= room ==> kept == data
  {
    if room == 0 then []
    else if |data| > room then data[..room]
    else data
  }

  class ByteStream {
    const capacity: nat
    var buffer: seq<Byte>
    var pushed: nat
    var popped: nat
    var closed: bool
    var error: bool
    /** Every byte the stream has ever accepted, in order. */
    ghost var written: seq<Byte>

    /** The buffer never exceeds the capacity, and it holds exactly the
        accepted bytes that have not been popped yet. */
    ghost predicate Valid()
      reads this
    {
      |buffer| <= capacity &&
      |written| == pushed &&
      popped <= pushed &&
      buffer == written[popped..]
    }

    constructor (capacity: nat)
      ensures Valid()
      ensures this.capacity == capacity
      ensures buffer == [] && written == [] && pushed == 0 && popped == 0
      ensures !closed && !error
    {
      this.capacity := capacity;
      buffer := [];
      pushed := 0;
      popped := 0;
      closed := false;
      error := false;
      written := [];
    }

    // ---------------------------------------------------------------- writer

    /** Free room in the buffer; never underflows. */
    function AvailableCapacity(): (n: nat)
      reads this
      requires Valid()
      ensures n + (pushed - popped) == capacity
    {
      capacity - |buffer|
    }

    /** Appends the part of `data` that fits and drops the rest. */
    method Push(data: seq<Byte>)
      requires Valid()
      modifies this
      ensures Valid()
      ensures buffer == old(buffer) + Accepted(data, old(AvailableCapacity()))
      ensures written == old(written) + Accepted(data, old(AvailableCapacity()))
      ensures pushed == old(pushed) + |Accepted(data, old(AvailableCapacity()))|
      ensures popped == old(popped) && closed == old(closed) && error == old(error)
    {
      if AvailableCapacity() > 0 {
        var kept := data;
        if |kept| > AvailableCapacity() {
          kept := kept[..AvailableCapacity()];
        }
        buffer := buffer + kept;
        pushed := pushed + |kept|;
        written := written + kept;
      }
    }

    /** Marks the end of the stream; calling it again changes nothing more. */
    method Close()
      requires Valid()
      modifies this
      ensures Valid()
      ensures closed
      ensures buffer == old(buffer) && written == old(written)
      ensures pushed == old(pushed) && popped == old(popped) && error == old(error)
    {
      closed := true;
    }

    function IsClosed(): (r: bool)
      reads this
      ensures r == closed
    {
      closed
    }

    /** Number of bytes ever accepted by Push. */
    function BytesPushed(): (n: nat)
      reads this
      requires Valid()
      ensures n == |written|
    {
      pushed
    }

    // ---------------------------------------------------------------- reader

    /** The buffered bytes: what was accepted and not yet popped, in order. */
    function Peek(): (view: seq<Byte>)
      reads this
      requires Valid()
      ensures view == written[popped..]
      ensures |view| == pushed - popped
    {
      buffer
    }

    /** Removes the first `len` bytes, or raises the error flag and changes
        nothing else when fewer than `len` bytes are buffered. */
    method Pop(len: nat)
      requires Valid()
      modifies this
      ensures Valid()
      ensures len > |old(buffer)| ==> error && buffer == old(buffer) && popped == old(popped)
      ensures len <= |old(buffer)| ==>
                buffer == old(buffer)[len..] && popped == old(popped) + len && error == old(error)
      ensures written == old(written) && pushed == old(pushed) && closed == old(closed)
    {
      if len > |buffer| {
        error := true;
        return;
      }
      buffer := buffer[len..];
      popped := popped + len;
    }

    /** Finished: closed and every accepted byte has been popped. */
    function IsFinished(): (r: bool)
      reads this
      requires Valid()
      ensures r <==> closed && popped == |written|
    {
      closed && |buffer| == 0
    }

    /** Number of bytes currently held. */
    function BytesBuffered(): (n: nat)
      reads this
      requires Valid()
      ensures n == pushed - popped
      ensures n <= capacity
    {
      |buffer|
    }

    /** Number of bytes ever removed by Pop. */
    function BytesPopped(): (n: nat)
      reads this
      requires Valid()
      ensures n <= |written|
      ensures |written| - n == |buffer|
    {
      popped
    }
  }
}
