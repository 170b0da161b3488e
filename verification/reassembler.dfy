/** Reassembly of indexed substrings into a bounded stream (src/reassembler.cc). */
module Reassemblers {
  import opened MachineTypes
  import opened ByteStreams

  /** The all-ones value that stands for "the end of the stream is not known". */
  const NO_END: uint64 := U64 - 1

  /** The output stream, the bytes stored ahead of it by index, and the index at which the stream ends. */
  datatype Reasm = Reasm(out: Stream, pending: map<nat, byte>, end: uint64) {

    function Needed(): nat {
      |out.history|
    }

    /** First index that does not fit: the right edge of the window. */
    function Limit(): nat {
      out.popped + out.capacity
    }

    ghost predicate Valid() {
      && out.Valid()
      && forall i :: i in pending ==> Needed() < i < Limit()
    }

    /** What is known of stream index `i`. */
    function Known(i: nat): Option<byte> {
      if i < Needed() then Some(out.history[i]) else if i in pending then Some(pending[i]) else None
    }

    /** Section 1 of `insert`: the bytes of `data` that lie inside the window are stored. */
    function Store(first: nat, data: seq<byte>): map<nat, byte> {
      pending + Clip(first, data, Needed(), Limit())
    }

    /** Section 2 of `insert` and the closing test after it. */
    function Insert(first: uint64, data: seq<byte>, last: bool): (r: Reasm)
      requires out.Valid()
    {
      var newEnd: uint64 := if last then (first + |data|) % U64 else end;
      var (drained, rest, needed) := Drain(out, Store(first, data), Needed());
      Reasm(if needed == newEnd then drained.(closed := true) else drained, rest, newEnd)
    }

    function Read(n: nat): Reasm
      requires out.Valid()
    {
      this.(out := out.Pop(Min(n, out.Buffered())))
    }
  }

  function NewReasm(capacity: nat): Reasm {
    Reasm(NewStream(capacity), map[], NO_END)
  }

  /** The bytes of `data`, placed at `first`, whose index lies in [lo, hi). */
  function Clip(first: nat, data: seq<byte>, lo: nat, hi: nat): map<nat, byte> {
    map i: nat | lo <= i < hi && Spans(first, |data|, i) :: data[i - first]
  }

  predicate Spans(first: nat, len: nat, i: nat) {
    first <= i < first + len
  }

  /** The drain loop: one stored byte at a time moves to the output while the next index is stored. */
  function Drain(out: Stream, pending: map<nat, byte>, needed: nat): (r: (Stream, map<nat, byte>, nat))
    requires out.Valid()
    ensures r.0.Valid()
    decreases |pending|
  {
    if needed in pending then
      FirstInFirstOut(out, [pending[needed]], 0);
      Drain(out.Push([pending[needed]]), pending - {needed}, needed + 1)
    else
      (out, pending, needed)
  }

  /** Every push of the drain loop is accepted, so the loop moves exactly the contiguous run of stored bytes. */
  lemma {:induction false} DrainMovesTheRun(out: Stream, pending: map<nat, byte>, needed: nat)
    requires out.Valid() && needed == |out.history|
    requires forall i :: i in pending ==> needed <= i < out.popped + out.capacity
    ensures var (out', rest, needed') := Drain(out, pending, needed);
            && needed' == |out'.history| && needed <= needed'
            && out' == out.(history := out'.history) && out'.history[..needed] == out.history
            && (forall i :: needed <= i < needed' ==> i in pending && out'.history[i] == pending[i])
            && needed' !in pending
            && rest == (map i | i in pending && needed' <= i :: pending[i])
    decreases |pending|
  {
    if needed in pending {
      var next := out.Push([pending[needed]]);
      assert next.history == out.history + [pending[needed]];
      DrainMovesTheRun(next, pending - {needed}, needed + 1);
      var (out', rest, needed') := Drain(next, pending - {needed}, needed + 1);
      assert out'.history[..needed] == out'.history[..needed + 1][..needed];
      assert out'.history[needed] == out'.history[..needed + 1][needed];
      forall i | needed <= i < needed'
        ensures i in pending && out'.history[i] == pending[i]
      {
        if i > needed {
          assert i in pending - {needed};
        }
      }
    } else {
      assert pending == map i | i in pending && needed <= i :: pending[i];
    }
  }

  /** `Insert` keeps the window invariant, only ever extends the output, leaves the next needed byte
      unstored, and closes the output exactly when it has reached the recorded end. */
  lemma InsertExtends(r: Reasm, first: uint64, data: seq<byte>, last: bool)
    requires r.Valid()
    ensures var r' := r.Insert(first, data, last);
            && r'.Valid()
            && r.out.history <= r'.out.history
            && r'.out == r.out.(history := r'.out.history, closed := r'.out.closed)
            && r'.end == (if last then (first + |data|) % U64 else r.end)
            && r'.out.closed == (r.out.closed || r'.Needed() == r'.end)
  {
    hide Drain;
    var stored := r.Store(first, data);
    forall i | i in stored ensures r.Needed() <= i < r.Limit() {}
    DrainMovesTheRun(r.out, stored, r.Needed());
    var (drained, rest, needed) := Drain(r.out, stored, r.Needed());
    assert needed > r.Needed() ==> needed - 1 in stored;
  }

  /** `Insert`, for every input: afterwards exactly the old bytes and the bytes of `data` inside the window
      are known, and the output is the longest known prefix. */
  lemma InsertKnows(r: Reasm, first: uint64, data: seq<byte>, last: bool)
    requires r.Valid()
    ensures var r' := r.Insert(first, data, last);
            && r'.Known(r'.Needed()).None?
            && forall i: nat :: r'.Known(i) ==
                  if Spans(first, |data|, i) && r.Needed() <= i < r.Limit() then Some(data[i - first])
                  else r.Known(i)
  {
    hide Drain;
    var stored := r.Store(first, data);
    forall i | i in stored ensures r.Needed() <= i < r.Limit() {}
    DrainMovesTheRun(r.out, stored, r.Needed());
    var (drained, rest, needed) := Drain(r.out, stored, r.Needed());
    var r' := r.Insert(first, data, last);
    assert r'.out.history == drained.history && r'.pending == rest;
    forall i: nat
      ensures r'.Known(i) ==
                if Spans(first, |data|, i) && r.Needed() <= i < r.Limit() then Some(data[i - first]) else r.Known(i)
    {
      if i < r.Needed() {
        assert drained.history[i] == drained.history[..r.Needed()][i];
      } else if i < needed {
        assert i in stored && r'.Known(i) == Some(stored[i]);
      }
    }
  }

  /** Everything known matches the stream `s`, whose end, if recorded, is right; closed means complete. */
  ghost predicate Agrees(r: Reasm, s: seq<byte>) {
    && (forall i: nat :: r.Known(i).Some? ==> i < |s| && r.Known(i).value == s[i])
    && (r.end == NO_END || r.end == |s|)
    && (r.out.closed <==> r.end == |s| && r.Needed() == |s|)
  }

  /** A substring of `s` placed where it belongs, flagged last only at the end of `s`. */
  ghost predicate Fragment(s: seq<byte>, first: nat, data: seq<byte>, last: bool) {
    && (forall i: nat :: Spans(first, |data|, i) ==> i < |s| && data[i - first] == s[i])
    && (last ==> first + |data| == |s|)
  }

  lemma InsertAgrees(r: Reasm, s: seq<byte>, first: uint64, data: seq<byte>, last: bool)
    requires r.Valid() && Agrees(r, s) && |s| < NO_END
    requires Fragment(s, first, data, last)
    ensures Agrees(r.Insert(first, data, last), s)
  {
    InsertExtends(r, first, data, last);
    InsertKnows(r, first, data, last);
    var r' := r.Insert(first, data, last);
    assert r'.Known(|s|).None?;
  }

  /** What agrees with `s` has written a prefix of it. */
  lemma AgreesIsPrefix(r: Reasm, s: seq<byte>)
    requires Agrees(r, s)
    ensures r.out.history <= s
    ensures r.out.closed ==> r.out.history == s
  {
    assert r.Known(|s|).None?;
    forall i | 0 <= i < r.Needed() ensures r.out.history[i] == s[i] {
      assert r.Known(i).Some?;
    }
  }

  // ---- Whole runs: substrings arriving and the reader taking bytes, in any order.

  datatype Event = Arrive(first: uint64, data: seq<byte>, last: bool) | Take(n: nat)

  function After(capacity: nat, events: seq<Event>): (r: Reasm)
    ensures r.Valid() && r.out.capacity == capacity
  {
    if events == [] then NewReasm(capacity)
    else
      var r := After(capacity, events[..|events| - 1]);
      match events[|events| - 1]
      case Arrive(first, data, last) =>
        InsertExtends(r, first, data, last);
        r.Insert(first, data, last)
      case Take(n) => r.Read(n)
  }

  /** Some arrival brought byte `i` at a moment when it lay below the right edge of the window. */
  predicate Accepted(capacity: nat, events: seq<Event>, i: nat) {
    events != [] &&
    var before, e := events[..|events| - 1], events[|events| - 1];
    || Accepted(capacity, before, i)
    || (e.Arrive? && Spans(e.first, |e.data|, i) && i < After(capacity, before).Limit())
  }

  /** Sliding window: after any run whatever, exactly the accepted bytes are known. Nothing else is stored,
      and nothing accepted is ever lost, however arrivals and reads interleave. */
  lemma {:induction false} KnownIsAccepted(capacity: nat, events: seq<Event>, i: nat)
    ensures After(capacity, events).Known(i).Some? <==> Accepted(capacity, events, i)
  {
    if events != [] {
      var before, e := events[..|events| - 1], events[|events| - 1];
      KnownIsAccepted(capacity, before, i);
      var r := After(capacity, before);
      match e
      case Arrive(first, data, last) => InsertKnows(r, first, data, last);
      case Take(n) => assert r.Read(n).Known(i) == r.Known(i);
    }
  }

  /** So the output of any run is the longest prefix of accepted bytes, and the bytes held back are the
      accepted ones beyond the first gap; together they never exceed the capacity. */
  lemma OutputIsLongestAcceptedPrefix(capacity: nat, events: seq<Event>, n: nat)
    requires (forall i: nat :: i < n ==> Accepted(capacity, events, i)) && !Accepted(capacity, events, n)
    ensures var r := After(capacity, events);
            && r.Needed() == n
            && (forall i: nat :: i in r.pending <==> i > n && Accepted(capacity, events, i))
            && |r.pending| + r.out.Buffered() <= capacity
  {
    var r := After(capacity, events);
    forall i: nat ensures r.Known(i).Some? <==> Accepted(capacity, events, i) {
      KnownIsAccepted(capacity, events, i);
    }
    assert r.Known(n).None?;
    assert n > r.Needed() ==> Accepted(capacity, events, r.Needed());
    assert r.Needed() == n by {
      assert r.Known(r.Needed()).None?;
    }
    forall i: nat ensures i in r.pending <==> i > n && Accepted(capacity, events, i) {
      assert r.Known(i).Some? <==> Accepted(capacity, events, i);
    }
    PendingFits(r);
  }

  lemma PendingFits(r: Reasm)
    requires r.Valid()
    ensures |r.pending| + r.out.Buffered() <= r.out.capacity
  {
    KeysFit(r.pending.Keys, r.Needed(), r.Limit());
  }

  lemma {:induction false} KeysFit(keys: set<nat>, lo: nat, hi: nat)
    requires lo <= hi && forall i :: i in keys ==> lo <= i < hi
    ensures |keys| <= hi - lo
    decreases hi - lo
  {
    if lo == hi {
      assert keys == {};
    } else {
      KeysFit(keys - {hi - 1}, lo, hi - 1);
    }
  }

  ghost predicate AllFragments(events: seq<Event>, s: seq<byte>) {
    forall e :: e in events && e.Arrive? ==> Fragment(s, e.first, e.data, e.last)
  }

  predicate EndSeen(events: seq<Event>) {
    exists e :: e in events && e.Arrive? && e.last
  }

  lemma EndSeenAtEnd(before: seq<Event>, e: Event)
    ensures EndSeen(before + [e]) <==> EndSeen(before) || (e.Arrive? && e.last)
  {
    assert e in before + [e];
    assert forall e' :: e' in before ==> e' in before + [e];
  }

  lemma NothingSeen(capacity: nat, s: seq<byte>)
    ensures Agrees(NewReasm(capacity), s) && !EndSeen([])
  {}

  lemma ReadAgrees(r: Reasm, s: seq<byte>, n: nat)
    requires r.Valid() && Agrees(r, s)
    ensures Agrees(r.Read(n), s) && r.Read(n).end == r.end
  {
    assert forall i: nat :: r.Read(n).Known(i) == r.Known(i);
  }

  /** Fragments of one stream, in any order and with any window, only ever produce that stream. */
  lemma {:induction false} FragmentsAgree(capacity: nat, events: seq<Event>, s: seq<byte>)
    requires AllFragments(events, s) && |s| < NO_END
    ensures Agrees(After(capacity, events), s)
    ensures After(capacity, events).end == |s| <==> EndSeen(events)
  {
    hide EndSeen, Agrees, Reasm.Insert;
    if events == [] {
      NothingSeen(capacity, s);
    } else {
      var before, e := events[..|events| - 1], events[|events| - 1];
      assert events == before + [e];
      FragmentsAgree(capacity, before, s);
      EndSeenAtEnd(before, e);
      var r := After(capacity, before);
      match e
      case Arrive(first, data, last) =>
        assert Fragment(s, first, data, last);
        InsertAgrees(r, s, first, data, last);
        InsertExtends(r, first, data, last);
      case Take(n) => ReadAgrees(r, s, n);
    }
  }

  predicate Covered(events: seq<Event>, i: nat) {
    exists e :: e in events && e.Arrive? && Spans(e.first, |e.data|, i)
  }

  /** With room for the whole stream no arriving byte is turned away. */
  lemma {:induction false} CoveredIsAccepted(capacity: nat, events: seq<Event>, i: nat)
    requires i < capacity
    ensures Accepted(capacity, events, i) <==> Covered(events, i)
  {
    if events != [] {
      var before, e := events[..|events| - 1], events[|events| - 1];
      assert events == before + [e];
      CoveredIsAccepted(capacity, before, i);
      if Covered(events, i) {
        var e' :| e' in events && e'.Arrive? && Spans(e'.first, |e'.data|, i);
        assert e' != e ==> e' in before;
      }
    }
  }

  /** Order, overlap and duplication do not matter: after any run of fragments of `s`, with room for all of
      `s`, the output is the longest prefix that their union covers; with every byte and the end seen it is
      `s`, closed, with nothing left over. */
  lemma ReassemblyIsLongestCoveredPrefix(capacity: nat, events: seq<Event>, s: seq<byte>, n: nat)
    requires AllFragments(events, s) && |s| <= capacity && |s| < NO_END
    requires (forall i: nat :: i < n ==> Covered(events, i)) && !Covered(events, n)
    ensures var r := After(capacity, events);
            && n <= |s| && r.out.history == s[..n]
            && (forall i: nat :: i in r.pending <==> i > n && Covered(events, i))
            && (forall i :: i in r.pending ==> i < |s| && r.pending[i] == s[i])
            && (r.out.closed <==> EndSeen(events) && n == |s|)
            && (n == |s| ==> r.pending == map[])
  {
    var r := After(capacity, events);
    FragmentsAgree(capacity, events, s);
    AgreesIsPrefix(r, s);
    forall i: nat ensures Accepted(capacity, events, i) <==> Covered(events, i) {
      if i < capacity {
        CoveredIsAccepted(capacity, events, i);
      } else {
        KnownIsAccepted(capacity, events, i);
        assert !Covered(events, i);
      }
    }
    OutputIsLongestAcceptedPrefix(capacity, events, n);
    assert forall i :: i in r.pending ==> r.Known(i).Some?;
  }

  // ---- The program's object.

  class Reassembler {
    const output: ByteStream
    var unassembled: map<nat, byte>
    var endOfStream: uint64

    ghost predicate Valid()
      reads this, output
    {
      output.Valid() && Model().Valid()
    }

    ghost function Model(): Reasm
      requires output.Valid()
      reads this, output
    {
      Reasm(output.Model(), unassembled, endOfStream)
    }

    constructor (output: ByteStream)
      requires output.Valid() && output.Model().history == []
      ensures this.output == output
      ensures Valid() && Model() == Reasm(output.Model(), map[], NO_END)
    {
      this.output := output;
      unassembled := map[];
      endOfStream := NO_END;
    }

    /** The byte counters must not overflow 64 bits. */
    method Insert(firstIndex: uint64, data: seq<byte>, isLastSubstring: bool)
      requires Valid() && Model().Limit() < U64
      modifies this, output
      ensures Valid() && Model() == old(Model()).Insert(firstIndex, data, isLastSubstring)
    {
      ghost var before := Model();
      InsertExtends(before, firstIndex, data, isLastSubstring);
      var indexNeeded: uint64 := output.BytesPushed();
      var available := output.AvailableCapacity();
      var firstUnacceptable: uint64 := indexNeeded + available;
      if isLastSubstring {
        endOfStream := EndIndex(firstIndex, |data|);
      }
      StoreBytes(firstIndex, data, indexNeeded, firstUnacceptable);
      ghost var stored := before.Store(firstIndex, data);
      assert unassembled == stored;
      indexNeeded := PushContiguous(indexNeeded, firstUnacceptable);
      ghost var drained := output.Model();
      assert (drained, unassembled, indexNeeded) == Drain(before.out, stored, before.Needed());
      if indexNeeded == endOfStream {
        output.Close();
      }
      assert Model() == before.Insert(firstIndex, data, isLastSubstring);
    }

    /** One past the last index of the substring, computed as the program does, through `last_index_stored`. */
    static method EndIndex(firstIndex: uint64, length: nat) returns (end: uint64)
      ensures end == (firstIndex + length) % U64
    {
      var lastIndexStored: uint64 := (firstIndex + length - 1) % U64;
      end := (lastIndexStored + 1) % U64;
    }

    method PushContiguous(start: uint64, firstUnacceptable: uint64) returns (indexNeeded: uint64)
      requires output.Valid() && start <= firstUnacceptable
      requires forall i :: i in unassembled ==> i < firstUnacceptable
      modifies this`unassembled, output
      ensures output.Valid()
      ensures (output.Model(), unassembled, indexNeeded) == Drain(old(output.Model()), old(unassembled), start)
    {
      indexNeeded := start;
      while indexNeeded in unassembled
        invariant output.Valid() && indexNeeded <= firstUnacceptable
        invariant unassembled.Keys <= old(unassembled).Keys
        invariant Drain(old(output.Model()), old(unassembled), start)
               == Drain(output.Model(), unassembled, indexNeeded)
        decreases |unassembled|
      {
        output.Push([unassembled[indexNeeded]]);
        unassembled := unassembled - {indexNeeded};
        indexNeeded := indexNeeded + 1;
      }
    }

    method StoreBytes(firstIndex: uint64, data: seq<byte>, indexNeeded: uint64, firstUnacceptable: uint64)
      modifies this`unassembled
      ensures unassembled == old(unassembled) + Clip(firstIndex, data, indexNeeded, firstUnacceptable)
    {
      var i: uint64 := firstIndex;
      for k := 0 to |data|
        invariant i == firstIndex + k
        invariant unassembled == old(unassembled) + Clip(firstIndex, data[..k], indexNeeded, firstUnacceptable)
      {
        if i >= firstUnacceptable {
          assert Clip(firstIndex, data, indexNeeded, firstUnacceptable)
              == Clip(firstIndex, data[..k], indexNeeded, firstUnacceptable);
          return;
        }
        if i >= indexNeeded {
          unassembled := unassembled[i := data[k]];
        }
        i := i + 1;
      }
      assert data[..|data|] == data;
    }

    method CountBytesPending() returns (n: nat)
      requires Valid()
      ensures n == |Model().pending|
    {
      n := |unassembled|;
    }
  }
}
