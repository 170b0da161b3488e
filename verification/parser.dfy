/** Parsing and serialising over a rope of buffers (util/parser.hh, util/parser.cc). */
module Parsers {
  import opened MachineTypes
  import opened Division
  import opened Checksums

  // ---- Big-endian integers.

  function BigEndian(bytes: seq<byte>): nat {
    if bytes == [] then 0 else BigEndian(bytes[..|bytes| - 1]) * 0x100 + bytes[|bytes| - 1]
  }

  lemma NothingIsZero()
    ensures BigEndian([]) == 0
  {}

  lemma BigEndianAppend(bytes: seq<byte>, last: byte)
    ensures BigEndian(bytes + [last]) == BigEndian(bytes) * 0x100 + last
  {
    assert (bytes + [last])[..|bytes|] == bytes;
  }

  function ToBytes(val: nat, width: nat): (bytes: seq<byte>)
    ensures |bytes| == width
  {
    if width == 0 then [] else ToBytes(val / 0x100, width - 1) + [val % 0x100]
  }

  function Pow256(n: nat): (p: nat)
    ensures p > 0
  {
    if n == 0 then 1 else 0x100 * Pow256(n - 1)
  }

  /** A number that fits survives serialising and parsing. */
  lemma {:induction false} BigEndianOfToBytes(val: nat, width: nat)
    requires val < Pow256(width)
    ensures BigEndian(ToBytes(val, width)) == val
  {
    if width > 0 {
      BigEndianOfToBytes(val / 0x100, width - 1);
      var front := ToBytes(val / 0x100, width - 1);
      assert (front + [val % 0x100])[..width - 1] == front;
    }
  }

  /** And bytes survive being parsed and serialised. */
  lemma {:induction false} ToBytesOfBigEndian(bytes: seq<byte>)
    ensures ToBytes(BigEndian(bytes), |bytes|) == bytes
  {
    if bytes != [] {
      var front, last := bytes[..|bytes| - 1], bytes[|bytes| - 1];
      ToBytesOfBigEndian(front);
      assert BigEndian(bytes) / 0x100 == BigEndian(front) && BigEndian(bytes) % 0x100 == last;
      assert bytes == front + [last];
    }
  }

  lemma {:induction false} BigEndianBound(bytes: seq<byte>)
    ensures BigEndian(bytes) < Pow256(|bytes|)
  {
    if bytes != [] {
      BigEndianBound(bytes[..|bytes| - 1]);
    }
  }

  /** Byte `i` as the serialiser shifts it out: `val >> ((len - i - 1) * 8)`, cut to 8 bits. */
  lemma {:induction false} ToBytesAt(val: nat, width: nat, i: nat)
    requires i < width
    ensures ToBytes(val, width)[i] == val / Pow256(width - 1 - i) % 0x100
  {
    if i < width - 1 {
      ToBytesAt(val / 0x100, width - 1, i);
      DivideTwice(val, 0x100, Pow256(width - 2 - i));
    }
  }

  // ---- Ropes.

  predicate AllSolid(chunks: seq<seq<byte>>) {
    forall c :: c in chunks ==> c != []
  }

  lemma {:induction false} ConcatAppend(a: seq<seq<byte>>, c: seq<byte>)
    ensures Concat(a + [c]) == Concat(a) + c
  {
    if a == [] {
      assert a + [c] == [c] && [c][1..] == [];
    } else {
      assert (a + [c])[1..] == a[1..] + [c];
      ConcatAppend(a[1..], c);
    }
  }

  lemma SolidTail(chunks: seq<seq<byte>>)
    requires AllSolid(chunks) && chunks != []
    ensures AllSolid(chunks[1..]) && (|chunks| > 1 ==> |chunks[1..][0]| > 0)
  {
    forall c | c in chunks[1..] ensures c in chunks {}
    assert |chunks| > 1 ==> chunks[1..][0] in chunks;
  }

  /** What a rope still holds when `skip` bytes of its first chunk are used up. */
  function View(chunks: seq<seq<byte>>, skip: nat): seq<byte> {
    if chunks == [] || skip > |chunks[0]| then [] else chunks[0][skip..] + Concat(chunks[1..])
  }

  lemma ViewOfWhole(chunks: seq<seq<byte>>)
    ensures View(chunks, 0) == Concat(chunks)
  {}

  lemma ViewDrop(chunks: seq<seq<byte>>, skip: nat, n: nat)
    requires chunks != [] && skip + n <= |chunks[0]|
    ensures |View(chunks, skip)| >= n && View(chunks, skip + n) == View(chunks, skip)[n..]
    ensures skip + n == |chunks[0]| ==> View(chunks[1..], 0) == View(chunks, skip)[n..]
  {
    hide Concat;
    ViewOfWhole(chunks[1..]);
    DropInFront(chunks[0][skip..], Concat(chunks[1..]), n);
    assert chunks[0][skip + n..] == chunks[0][skip..][n..];
  }

  lemma DropInFront<T>(a: seq<T>, b: seq<T>, n: nat)
    requires n <= |a|
    ensures (a + b)[n..] == a[n..] + b && (n == |a| ==> (a + b)[n..] == b)
  {}

  /** How far into its chunk the flat position `pos` falls: 0 exactly at a chunk boundary. */
  function SkipAt(chunks: seq<seq<byte>>, pos: nat): nat {
    if chunks == [] then 0
    else if pos < |chunks[0]| then pos
    else SkipAt(chunks[1..], pos - |chunks[0]|)
  }

  function CutAfter(chunks: seq<seq<byte>>, i: nat, n: nat): nat {
    SkipAt(chunks, i + n)
  }

  /** Two ropes whose remaining chunk boundaries fall in the same places. */
  ghost predicate SameCuts(a: seq<seq<byte>>, i: nat, b: seq<seq<byte>>, j: nat) {
    forall n: nat :: CutAfter(a, i, n) == CutAfter(b, j, n)
  }

  lemma SameCutsMove(a: seq<seq<byte>>, i: nat, b: seq<seq<byte>>, j: nat, n: nat)
    requires SameCuts(a, i, b, j)
    ensures SameCuts(a, i + n, b, j + n)
  {
    var i', j' := i + n, j + n;
    forall m: nat ensures CutAfter(a, i', m) == CutAfter(b, j', m) {
      assert CutAfter(a, i, n + m) == CutAfter(b, j, n + m);
    }
  }

  lemma SameCutsPop(a: seq<seq<byte>>, b: seq<seq<byte>>, j: nat)
    requires a != [] && SameCuts(a, |a[0]|, b, j)
    ensures SameCuts(a[1..], 0, b, j)
  {
    forall m: nat ensures CutAfter(a[1..], 0, m) == CutAfter(b, j, m) {
      assert CutAfter(a, |a[0]|, m) == CutAfter(b, j, m);
    }
  }

  class BufferList {
    var size: nat
    var buffer: seq<seq<byte>>
    var skip: nat

    /** The bytes not yet consumed. */
    ghost function Content(): seq<byte>
      reads this
    {
      View(buffer, skip)
    }

    ghost predicate Valid()
      reads this
    {
      size == |Content()| && (buffer != [] ==> skip <= |buffer[0]|)
    }

    /** No empty chunk lies ahead of remaining data, so `peek().front()` exists while any byte does. */
    ghost predicate Solid()
      reads this
    {
      AllSolid(buffer) && (buffer != [] ==> skip < |buffer[0]|)
    }

    constructor (buffers: seq<seq<byte>>)
      ensures Valid() && Content() == Concat(buffers) && skip == 0 && buffer == buffers
      ensures AllSolid(buffers) ==> Solid()
    {
      buffer := [];
      size := 0;
      skip := 0;
      new;
      for i := 0 to |buffers|
        invariant buffer == buffers[..i] && size == |Concat(buffers[..i])| && skip == 0
      {
        assert buffers[..i + 1] == buffers[..i] + [buffers[i]];
        ConcatAppend(buffers[..i], buffers[i]);
        buffer := buffer + [buffers[i]];
        size := size + |buffers[i]|;
      }
      assert buffers[..|buffers|] == buffers;
      ViewOfWhole(buffer);
      assert AllSolid(buffers) && buffers != [] ==> buffers[0] in buffers;
    }

    method Peek() returns (view: seq<byte>)
      requires Valid() && buffer != []
      ensures view == buffer[0][skip..]
    {
      view := buffer[0][skip..];
    }

    method RemovePrefix(len: nat)
      requires Valid()
      modifies this
      ensures Valid() && (old(Solid()) ==> Solid())
      ensures Content() == old(Content())[Min(len, |old(Content())|)..]
      ensures SameCuts(buffer, skip, old(buffer), old(skip) + Min(len, |old(Content())|))
    {
      hide View, SkipAt, SameCuts;
      SameCutsSelf(buffer, skip);
      var left: nat := len;
      ghost var all := Content();
      ghost var popped := 0;
      EmptyView(skip);
      while left > 0 && buffer != []
        invariant Valid() && (old(Solid()) ==> Solid())
        invariant popped + left == len && popped <= |all| && Content() == all[popped..]
        invariant SameCuts(buffer, skip, old(buffer), old(skip) + popped)
        decreases left, |buffer|
      {
        var view := Peek();
        var toPopNow := Min(left, |view|);
        ViewDrop(buffer, skip, toPopNow);
        SameCutsMove(buffer, skip, old(buffer), old(skip) + popped, toPopNow);
        skip := skip + toPopNow;
        left := left - toPopNow;
        size := size - toPopNow;
        popped := popped + toPopNow;
        if skip == |buffer[0]| {
          if AllSolid(buffer) {
            SolidTail(buffer);
          }
          SameCutsPop(buffer, old(buffer), old(skip) + popped);
          buffer := buffer[1..];
          skip := 0;
        }
      }
      EmptyView(skip);
      assert buffer == [] ==> |all[popped..]| == 0;
    }

    static lemma SameCutsSelf(chunks: seq<seq<byte>>, i: nat)
      ensures SameCuts(chunks, i, chunks, i)
    {}

    static lemma EmptyView(skip: nat)
      ensures View([], skip) == []
    {}

    /** Keeps the first `len` bytes of the chunks. Sizes are counted from the start of the first chunk, used-up
        bytes included, so the result is right exactly when nothing of the first chunk is used up (or there is
        nothing to cut, or everything). */
    method Truncate(len: nat)
      requires Valid()
      modifies this
      ensures old(skip) == 0 || len == 0 || len >= old(size) ==>
                Valid() && Content() == old(Content())[..Min(len, |old(Content())|)]
      ensures old(skip) > 0 && 0 < len < old(size) ==>
                && !Valid() && size == len && skip == old(skip)
                && buffer != [] && |buffer[0]| == Min(|old(buffer)[0]|, len)
                && View(buffer, skip) == old(Content())[..Max(len - old(skip), 0)]
      ensures buffer == [] ==> size == 0
      ensures old(Solid()) && (len == 0 || len >= old(size) || old(skip) == 0) ==> Solid()
    {
      if size <= len {
        assert Content()[..|Content()|] == Content();
        return;
      }
      if len == 0 {
        buffer := [];
        size := 0;
        return;
      }
      ViewIsSuffix(buffer, skip);
      var kept := CutChunks(len);
      ViewIsSuffix(kept, skip);
      buffer := kept;
      size := len;
    }

    /** The loop over the chunks: whole chunks while they fit, then the last one cut short. */
    method CutChunks(len: nat) returns (kept: seq<seq<byte>>)
      requires 0 < len <= |Concat(buffer)|
      ensures Concat(kept) == Concat(buffer)[..len] && kept != []
      ensures |kept[0]| == Min(|buffer[0]|, len)
      ensures AllSolid(buffer) ==> AllSolid(kept)
    {
      var sizeSoFar := 0;
      var it := 0;
      assert buffer[..0] == [];
      assert buffer[0..] == buffer;
      while it < |buffer|
        invariant it <= |buffer| && sizeSoFar == |Concat(buffer[..it])| < len
        invariant Concat(buffer) == Concat(buffer[..it]) + Concat(buffer[it..])
      {
        CutStep(buffer, it);
        if sizeSoFar + |buffer[it]| < len {
          sizeSoFar := sizeSoFar + |buffer[it]|;
          it := it + 1;
        } else if sizeSoFar + |buffer[it]| == len {
          SolidPrefix(buffer, it + 1);
          return buffer[..it + 1];
        } else {
          var cut := buffer[it][..len - sizeSoFar];
          assert |cut| > 0;
          ConcatAppend(buffer[..it], cut);
          SolidPrefix(buffer, it);
          return buffer[..it] + [cut];
        }
      }
      assert false;
    }

    static lemma SolidPrefix(chunks: seq<seq<byte>>, n: nat)
      requires n <= |chunks|
      ensures AllSolid(chunks) ==> AllSolid(chunks[..n])
    {
      forall c | c in chunks[..n] ensures c in chunks {}
    }

    static lemma CutStep(chunks: seq<seq<byte>>, it: nat)
      requires it < |chunks| && Concat(chunks) == Concat(chunks[..it]) + Concat(chunks[it..])
      ensures Concat(chunks[..it + 1]) == Concat(chunks[..it]) + chunks[it]
      ensures Concat(chunks) == Concat(chunks[..it + 1]) + Concat(chunks[it + 1..])
    {
      hide Concat;
      NextChunk(chunks, it);
      Reassociate(Concat(chunks[..it]), chunks[it], Concat(chunks[it + 1..]));
    }

    static lemma NextChunk(chunks: seq<seq<byte>>, it: nat)
      requires it < |chunks|
      ensures Concat(chunks[..it + 1]) == Concat(chunks[..it]) + chunks[it]
      ensures Concat(chunks[it..]) == chunks[it] + Concat(chunks[it + 1..])
    {
      assert chunks[..it + 1] == chunks[..it] + [chunks[it]];
      assert chunks[it..][0] == chunks[it] && chunks[it..][1..] == chunks[it + 1..];
      ConcatAppend(chunks[..it], chunks[it]);
    }

    static lemma Reassociate<T>(a: seq<T>, b: seq<T>, c: seq<T>)
      ensures a + (b + c) == (a + b) + c
    {}

    static lemma ViewIsSuffix(chunks: seq<seq<byte>>, skip: nat)
      ensures chunks != [] && skip <= |chunks[0]| ==>
                skip <= |Concat(chunks)| && View(chunks, skip) == Concat(chunks)[skip..]
    {}

    /** Hands over the remaining chunks; `None` is the exception of a `substr` past the end of the first chunk. */
    method DumpAll() returns (out: Option<seq<seq<byte>>>)
      requires buffer == [] ==> size == 0
      modifies this
      ensures old(size) == 0 ==> out == Some([])
      ensures old(size) > 0 ==>
                if old(skip) > |old(buffer)[0]| then out.None?
                else out.Some? && Concat(out.value) == View(old(buffer), old(skip))
      ensures old(Solid()) && out.Some? ==> AllSolid(out.value)
    {
      if size == 0 {
        return Some([]);
      }
      var first := buffer[0];
      if skip > 0 {
        if skip > |first| {
          return None;
        }
        first := first[skip..];
      }
      var rest := buffer[1..];
      out := Some([first] + rest);
      assert ([first] + rest)[1..] == rest;
      assert forall c :: c in rest ==> c in buffer;
      buffer := rest;
    }

    /** The remaining bytes, chunk by chunk, without consuming them. */
    method Buffers() returns (views: seq<seq<byte>>)
      requires Valid()
      ensures Concat(views) == Content()
    {
      if size == 0 {
        return [];
      }
      views := [];
      var tmpSkip := skip;
      assert buffer[..0] == [] && buffer[0..] == buffer;
      for i := 0 to |buffer|
        invariant tmpSkip == if i == 0 then skip else 0
        invariant Concat(views) + View(buffer[i..], tmpSkip) == Content()
      {
        assert buffer[i..][0] == buffer[i] && buffer[i..][1..] == buffer[i + 1..];
        ConcatAppend(views, buffer[i][tmpSkip..]);
        ViewOfWhole(buffer[i + 1..]);
        Reassociate(Concat(views), buffer[i][tmpSkip..], Concat(buffer[i + 1..]));
        views := views + [buffer[i][tmpSkip..]];
        tmpSkip := 0;
      }
      assert buffer[|buffer|..] == [];
    }
  }

  class Parser {
    const input: BufferList
    var error: bool
    ghost const chunks: seq<seq<byte>>
    ghost const bytes: seq<byte>
    ghost var pos: nat

    /** The parser stands at `pos` in the flat string `bytes`, with the chunk boundaries where they were. */
    ghost predicate Valid()
      reads this, input
    {
      && input.Valid() && input.Solid()
      && pos <= |bytes| && input.Content() == bytes[pos..]
      && SameCuts(input.buffer, input.skip, chunks, pos)
    }

    lemma SkipIsCut()
      requires Valid()
      ensures input.buffer != [] ==> input.skip == SkipAt(chunks, pos)
    {
      assert CutAfter(input.buffer, input.skip, 0) == CutAfter(chunks, pos, 0);
    }

    /** Chunks handed to a parser are not empty; `Serializer` never produces an empty one. */
    constructor (chunks: seq<seq<byte>>)
      requires AllSolid(chunks)
      ensures Valid() && this.chunks == chunks && bytes == Concat(chunks) && pos == 0 && !error
      ensures fresh(input)
    {
      input := new BufferList(chunks);
      error := false;
      this.chunks := chunks;
      bytes := Concat(chunks);
      pos := 0;
    }

    method SetError()
      requires Valid()
      modifies this
      ensures Valid() && error && pos == old(pos)
    {
      error := true;
    }

    method CheckSize(size: nat)
      requires Valid()
      modifies this`error
      ensures Valid() && error == (old(error) || size > |bytes| - pos)
    {
      if size > input.size {
        error := true;
      }
    }

    /** Big-endian, across chunk boundaries; on error the caller's variable keeps its value. */
    method Integer(width: nat, init: nat) returns (out: nat)
      requires Valid() && width > 0
      modifies this, input
      ensures Valid() && error == (old(error) || width > |bytes| - old(pos))
      ensures error ==> out == init && pos == old(pos)
      ensures !error ==> pos == old(pos) + width && out == BigEndian(bytes[old(pos)..pos])
      ensures init < Pow256(width) ==> out < Pow256(width)
    {
      hide BigEndian, Pow256, Valid;
      out := init;
      CheckSize(width);
      if error {
        return;
      }
      out := 0;
      NothingIsZero();
      assert bytes[pos..pos] == [];
      for i := 0 to width
        invariant Valid() && !error && pos == old(pos) + i && width <= |bytes| - old(pos)
        invariant out == BigEndian(bytes[old(pos)..pos])
      {
        var front := TakeByte();
        BigEndianAppend(bytes[old(pos)..pos - 1], front);
        assert bytes[old(pos)..pos] == bytes[old(pos)..pos - 1] + [front];
        out := out * 0x100 + front;
      }
      BigEndianBound(bytes[old(pos)..pos]);
    }

    /** `peek().front()`, then `remove_prefix(1)`. */
    method TakeByte() returns (front: byte)
      requires Valid() && pos < |bytes|
      modifies this`pos, input
      ensures Valid() && pos == old(pos) + 1 && front == bytes[old(pos)]
    {
      assert input.buffer != [] by {
        assert input.Content() == bytes[pos..];
      }
      var view := input.Peek();
      front := view[0];
      assert front == input.Content()[0];
      RemovePrefix(1);
    }

    method RemovePrefix(n: nat)
      requires Valid()
      modifies this`pos, input
      ensures Valid() && pos == Min(old(pos) + n, |bytes|)
    {
      ghost var gone := Min(n, |bytes| - pos);
      assert |input.Content()| == |bytes| - pos;
      ghost var buffer, skip := input.buffer, input.skip;
      SameCutsMove(buffer, skip, chunks, pos, gone);
      input.RemovePrefix(n);
      pos := pos + gone;
    }

    /** Fills a span of `n` bytes; on error the span keeps its contents. */
    method String(n: nat, init: seq<byte>) returns (out: seq<byte>)
      requires Valid() && |init| == n
      modifies this, input
      ensures Valid() && error == (old(error) || n > |bytes| - old(pos))
      ensures error ==> out == init && pos == old(pos)
      ensures !error ==> pos == old(pos) + n && out == bytes[old(pos)..pos]
    {
      out := init;
      CheckSize(n);
      if error {
        return;
      }
      out := [];
      while |out| < n
        invariant Valid() && !error && |out| <= n && pos == old(pos) + |out| && n <= |bytes| - old(pos)
        invariant out == bytes[old(pos)..pos]
        decreases n - |out|
      {
        out := TakeChunk(out, n - |out|);
      }
    }

    method TakeChunk(out: seq<byte>, most: nat) returns (more: seq<byte>)
      requires Valid() && 0 < most <= |bytes| - pos
      modifies this`pos, input
      ensures Valid() && old(pos) < pos <= old(pos) + most && more == out + bytes[old(pos)..pos]
    {
      assert input.Content() == bytes[pos..];
      var view := input.Peek();
      var taken := view[..Min(|view|, most)];
      assert taken == input.Content()[..|taken|];
      more := out + taken;
      RemovePrefix(|taken|);
    }

    method ConcatenateAllRemaining() returns (out: seq<byte>)
      requires Valid()
      modifies input
      ensures out == bytes[pos..]
    {
      var chunks := input.DumpAll();
      out := [];
      var list := chunks.value;
      assert list[..0] == [];
      for i := 0 to |list|
        invariant out == Concat(list[..i])
      {
        assert list[..i + 1] == list[..i] + [list[i]];
        ConcatAppend(list[..i], list[i]);
        out := out + list[i];
      }
      assert list[..|list|] == list;
    }
  }

  class Serializer {
    var output: seq<seq<byte>>
    var buffer: seq<byte>

    ghost function Content(): seq<byte>
      reads this
    {
      Concat(output) + buffer
    }

    constructor ()
      ensures Content() == [] && AllSolid(output)
    {
      output, buffer := [], [];
    }

    method Integer(val: nat, width: nat)
      modifies this`buffer
      ensures Content() == old(Content()) + ToBytes(val, width)
    {
      for i := 0 to width
        invariant buffer == old(buffer) + ToBytes(val, width)[..i]
      {
        ToBytesAt(val, width, i);
        var byteVal: byte := val / Pow256(width - i - 1) % 0x100;
        buffer := buffer + [byteVal];
      }
    }

    method Flush()
      requires AllSolid(output)
      modifies this
      ensures AllSolid(output) && Content() == old(Content()) && buffer == []
    {
      if buffer != [] {
        ConcatAppend(output, buffer);
        output := output + [buffer];
        buffer := [];
      }
    }

    method Buffer(buf: seq<byte>)
      requires AllSolid(output)
      modifies this
      ensures AllSolid(output) && Content() == old(Content()) + buf
    {
      if buf != [] {
        Flush();
        ConcatAppend(output, buf);
        output := output + [buf];
      }
    }

    method BufferAll(bufs: seq<seq<byte>>)
      requires AllSolid(output)
      modifies this
      ensures AllSolid(output) && Content() == old(Content()) + Concat(bufs)
    {
      assert bufs[..0] == [];
      for i := 0 to |bufs|
        invariant AllSolid(output) && Content() == old(Content()) + Concat(bufs[..i])
      {
        assert bufs[..i + 1] == bufs[..i] + [bufs[i]];
        ConcatAppend(bufs[..i], bufs[i]);
        Buffer(bufs[i]);
      }
      assert bufs[..|bufs|] == bufs;
    }

    method Finish() returns (chunks: seq<seq<byte>>)
      requires AllSolid(output)
      modifies this
      ensures AllSolid(chunks) && Concat(chunks) == old(Content())
    {
      Flush();
      chunks := output;
      output := [];
    }
  }
}
