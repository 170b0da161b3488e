/** Wrap32: 64-bit absolute sequence numbers travelling as 32-bit values (src/wrapping_integers.cc). */
module WrappingIntegers {
  import opened MachineTypes

  function Wrap(n: nat, zero: uint32): (r: uint32)
    ensures (r - zero - n) % U32 == 0
  {
    (zero + n % U32) % U32
  }

  /** |a - b| as the program computes it on unsigned values. */
  function Distance(a: uint64, b: uint64): uint64 {
    if a > b then a - b else b - a
  }

  /** Unsigned 64-bit arithmetic: `low` and `high` wrap around, as in the source. */
  function Unwrap(raw: uint32, zero: uint32, checkpoint: uint64): uint64 {
    var remainder: uint32 := (raw - zero) % U32;
    var med: uint64 := checkpoint / U32 * U32 + remainder;
    var low: uint64 := (med - U32) % U64;
    var high: uint64 := (med + U32) % U64;
    var diffMed := Distance(med, checkpoint);
    var diffLow := Distance(low, checkpoint);
    var diffHigh := Distance(high, checkpoint);
    var best := if diffHigh < diffMed then high else med;
    if med >= U32 && diffLow < diffMed && diffLow < diffHigh then low else best
  }

  /** The 64-bit numbers that the 32-bit value `raw` can stand for. */
  ghost predicate Candidate(x: uint64, raw: uint32, zero: uint32) {
    x % U32 == (raw - zero) % U32
  }

  /** `Unwrap` in terms of the checkpoint's 2^32 block and its place in that block: the candidate moves
      to a neighbouring block exactly when that is strictly nearer and does not leave 64 bits. */
  lemma UnwrapByBlock(raw: uint32, zero: uint32, block: uint32, place: uint32)
    ensures var n := Offset(raw, zero);
            Unwrap(raw, zero, block * U32 + place) ==
              (if n - place > U32 / 2 && block > 0 then block - 1
               else if place - n > U32 / 2 && block < U32 - 1 then block + 1
               else block) * U32 + n
  {
    var checkpoint: uint64 := block * U32 + place;
    BlockAndPlace(block, place);
    var med: uint64 := block * U32 + Offset(raw, zero);
    assert block > 0 ==> med >= U32 && (med - U32) % U64 == med - U32;
    assert block < U32 - 1 ==> (med + U32) % U64 == med + U32;
    assert block == U32 - 1 ==> (med + U32) % U64 == Offset(raw, zero);
  }

  lemma BlockAndPlace(block: int, place: int)
    requires 0 <= place < U32
    ensures (block * U32 + place) / U32 == block && (block * U32 + place) % U32 == place
  {}

  /** `Unwrap` is the nearest candidate; a tie goes to the one in the checkpoint's own 2^32 block. */
  lemma UnwrapIsNearest(raw: uint32, zero: uint32, checkpoint: uint64, x: uint64)
    requires Candidate(x, raw, zero)
    ensures Candidate(Unwrap(raw, zero, checkpoint), raw, zero)
    ensures var u := Unwrap(raw, zero, checkpoint);
            || x == u
            || Distance(u, checkpoint) < Distance(x, checkpoint)
            || (Distance(u, checkpoint) == Distance(x, checkpoint) && u / U32 == checkpoint / U32)
  {
    hide Unwrap, Distance;
    var block, place := checkpoint / U32, checkpoint % U32;
    var xBlock, n := x / U32, Offset(raw, zero);
    var uBlock := if n - place > U32 / 2 && block > 0 then block - 1
                  else if place - n > U32 / 2 && block < U32 - 1 then block + 1
                  else block;
    UnwrapByBlock(raw, zero, block, place);
    BlockAndPlace(uBlock, n);
    NearestByBlock(n, block, place, xBlock, uBlock);
  }

  lemma NearestByBlock(n: uint32, block: uint32, place: uint32, xBlock: uint32, uBlock: uint32)
    requires uBlock == if n - place > U32 / 2 && block > 0 then block - 1
                       else if place - n > U32 / 2 && block < U32 - 1 then block + 1
                       else block
    ensures var c, u, x := block * U32 + place, uBlock * U32 + n, xBlock * U32 + n;
            || xBlock == uBlock
            || Distance(u, c) < Distance(x, c)
            || (Distance(u, c) == Distance(x, c) && uBlock == block)
  {
    assert xBlock < block ==> xBlock * U32 <= (block - 1) * U32;
    assert xBlock > block ==> xBlock * U32 >= (block + 1) * U32;
  }

  /** The 32-bit distance of a wrapped number from its zero point. */
  function Offset(raw: uint32, zero: uint32): uint32 {
    (raw - zero) % U32
  }

  lemma OffsetOfWrap(n: nat, zero: uint32)
    ensures Offset(Wrap(n, zero), zero) == n % U32
  {
    var m := n % U32;
    if zero + m < U32 {
      assert Wrap(n, zero) == zero + m;
    } else {
      assert Wrap(n, zero) == zero + m - U32;
    }
  }

  /** Inside the first 2^32 numbers the round trip fails in one way only: a value more than
      2^31 behind the checkpoint is read as the one a whole block later. */
  lemma UnwrapInFirstBlock(raw: uint32, zero: uint32, checkpoint: uint64)
    requires checkpoint < U32
    ensures var n := Offset(raw, zero);
            Unwrap(raw, zero, checkpoint) == if checkpoint - n > U32 / 2 then n + U32 else n
  {
    UnwrapByBlock(raw, zero, 0, checkpoint);
  }

  /** Exactly which values survive the 32-bit journey: those within 2^31 of the checkpoint, a tie in the
      checkpoint's own block, and, in the lowest and highest block, values whose rival would leave 64 bits. */
  lemma RoundTrip(n: uint64, zero: uint32, checkpoint: uint64)
    ensures Unwrap(Wrap(n, zero), zero, checkpoint) == n <==>
            || Distance(n, checkpoint) < U32 / 2
            || (n / U32 == checkpoint / U32 &&
                (|| Distance(n, checkpoint) == U32 / 2
                 || (n / U32 == 0 && n > checkpoint)
                 || (n / U32 == U32 - 1 && n < checkpoint)))
  {
    OffsetOfWrap(n, zero);
    var nPlace, nBlock, block, place := n % U32, n / U32, checkpoint / U32, checkpoint % U32;
    assert n == nBlock * U32 + nPlace && checkpoint == block * U32 + place;
    UnwrapByBlock(Wrap(n, zero), zero, block, place);
    RoundTripByBlock(nPlace, nBlock, block, place);
  }

  lemma RoundTripByBlock(nPlace: uint32, nBlock: uint32, block: uint32, place: uint32)
    ensures var n, c := nBlock * U32 + nPlace, block * U32 + place;
            nBlock == (if nPlace - place > U32 / 2 && block > 0 then block - 1
                       else if place - nPlace > U32 / 2 && block < U32 - 1 then block + 1
                       else block)
            <==>
            || Distance(n, c) < U32 / 2
            || (nBlock == block &&
                (|| Distance(n, c) == U32 / 2
                 || (nBlock == 0 && n > c)
                 || (nBlock == U32 - 1 && n < c)))
  {
    assert nBlock < block ==> nBlock * U32 <= (block - 1) * U32;
    assert nBlock > block ==> nBlock * U32 >= (block + 1) * U32;
  }
}
