/** The bounded byte stream (src/byte_stream.cc) and the helper that reads from it
    (src/byte_stream_helpers.cc). */
module ByteStreams {
  import opened MachineTypes

  /** A stream as a value: everything ever written, and how much of it has been read. */
  datatype Stream = Stream(capacity: nat, history: seq<byte>, popped: nat, closed: bool, error: bool) {

    ghost predicate Valid() {
      popped <= |history| <= popped + capacity
    }

    function Buffered(): int {
      |history| - popped
    }

    function Available(): int {
      capacity - Buffered()
    }

    function Peek(): seq<byte>
      requires Valid()
    {
      history[popped..]
    }

    predicate IsFinished() {
      closed && popped == |history|
    }

    function Push(data: seq<byte>): Stream
      requires Valid()
    {
      this.(history := history + data[..Min(|data|, Available())])
    }

    function Pop(len: nat): Stream
      requires len <= Buffered()
    {
      this.(popped := popped + len)
    }
  }

  function NewStream(capacity: nat): Stream {
    Stream(capacity, [], 0, false, false)
  }

  /** What goes in comes out: the bytes taken by `Pop` followed by those still readable are the bytes
      readable before, and pushing extends the readable bytes at the back, up to the capacity. */
  lemma FirstInFirstOut(s: Stream, data: seq<byte>, len: nat)
    requires s.Valid()
    ensures s.Push(data).Valid()
    ensures s.Push(data).Peek() == s.Peek() + data[..Min(|data|, s.Available())]
    ensures s.Push(data).Available() == 0 || s.Push(data).Peek() == s.Peek() + data
    ensures len <= s.Buffered() ==> s.Pop(len).Valid() && s.Peek() == s.Peek()[..len] + s.Pop(len).Peek()
  {
    var kept := data[..Min(|data|, s.Available())];
    assert (s.history + kept)[s.popped..] == s.history[s.popped..] + kept;
    if len <= s.Buffered() {
      assert s.history[s.popped..][..len] + s.history[s.popped + len..] == s.history[s.popped..];
    }
  }

  class ByteStream {
    const capacity: nat
    var error: bool
    var totalPushed: nat
    var buffer: seq<byte>
    var closed: bool
    var totalPopped: nat
    ghost var history: seq<byte>

    ghost predicate Valid()
      reads this
    {
      && totalPushed == |history|
      && totalPopped <= |history|
      && buffer == history[totalPopped..]
      && |buffer| <= capacity
    }

    ghost function Model(): (s: Stream)
      requires Valid()
      reads this
      ensures s.Valid() && s.Peek() == buffer
    {
      Stream(capacity, history, totalPopped, closed, error)
    }

    constructor (capacity: nat)
      ensures Valid() && Model() == NewStream(capacity)
    {
      this.capacity := capacity;
      error, closed := false, false;
      totalPushed, totalPopped := 0, 0;
      buffer, history := [], [];
    }

    method Push(data: seq<byte>)
      requires Valid()
      modifies this
      ensures Valid() && Model() == old(Model()).Push(data)
    {
      var rest := data;
      ghost var taken := [];
      while |buffer| < capacity && rest != []
        invariant Valid()
        invariant data == taken + rest
        invariant history == old(history) + taken
        invariant closed == old(closed) && error == old(error) && totalPopped == old(totalPopped)
        decreases |rest|
      {
        ghost var next := rest[0];
        buffer := buffer + [rest[0]];
        rest := rest[1..];
        totalPushed := totalPushed + 1;
        taken := taken + [next];
        history := history + [next];
        assert buffer == history[totalPopped..];
        assert history == old(history) + taken;
      }
      assert taken == data[..Min(|data|, old(Model()).Available())];
    }

    method Close()
      requires Valid()
      modifies this
      ensures Valid() && Model() == old(Model()).(closed := true)
    {
      closed := true;
    }

    method SetError()
      requires Valid()
      modifies this
      ensures Valid() && Model() == old(Model()).(error := true)
    {
      error := true;
    }

    /** Popping more than is buffered empties the buffer but still counts it all, and the counters are out of step. */
    method Pop(len: nat)
      requires Valid()
      modifies this`buffer, this`totalPopped
      ensures buffer == old(buffer)[Min(len, |old(buffer)|)..] && totalPopped == old(totalPopped) + len
      ensures Valid() <==> len <= |old(buffer)|
      ensures len <= |old(buffer)| ==> Model() == old(Model()).Pop(len)
    {
      buffer := buffer[Min(len, |buffer|)..];
      totalPopped := totalPopped + len;
    }

    method IsClosed() returns (r: bool)
      requires Valid()
      ensures r == Model().closed
    {
      r := closed;
    }

    method HasError() returns (r: bool)
      requires Valid()
      ensures r == Model().error
    {
      r := error;
    }

    method AvailableCapacity() returns (n: nat)
      requires Valid()
      ensures n == Model().Available()
    {
      n := capacity - |buffer|;
    }

    method BytesPushed() returns (n: nat)
      requires Valid()
      ensures n == |Model().history|
    {
      n := totalPushed;
    }

    method BytesPopped() returns (n: nat)
      requires Valid()
      ensures n == Model().popped
    {
      n := totalPopped;
    }

    method BytesBuffered() returns (n: nat)
      requires Valid()
      ensures n == Model().Buffered()
    {
      n := totalPushed - totalPopped;
    }

    method IsFinished() returns (r: bool)
      requires Valid()
      ensures r == Model().IsFinished()
    {
      r := closed && totalPushed == totalPopped;
    }

    /** The `read` helper: peeks and pops until `maxLen` bytes are taken or the buffer is empty. */
    method Read(maxLen: nat) returns (out: seq<byte>)
      requires Valid()
      modifies this
      ensures Valid()
      ensures var n := Min(maxLen, old(Model()).Buffered());
              out == old(Model()).Peek()[..n] && Model() == old(Model()).Pop(n)
    {
      out := [];
      ghost var before := Model();
      while totalPushed - totalPopped > 0 && |out| < maxLen
        invariant Valid() && |out| <= maxLen
        invariant totalPopped == before.popped + |out|
        invariant forall k :: 0 <= k < |out| ==> out[k] == history[before.popped + k]
        invariant history == before.history && closed == before.closed && error == before.error
        decreases |buffer|
      {
        var view := buffer[..Min(|buffer|, maxLen - |out|)];
        out := out + view;
        Pop(|view|);
      }
    }
  }
}
