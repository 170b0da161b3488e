/** The Internet checksum (util/checksum.hh; RFC 1071). */
module Checksums {
  import opened MachineTypes

  function Concat(pieces: seq<seq<byte>>): seq<byte> {
    if pieces == [] then [] else pieces[0] + Concat(pieces[1..])
  }

  /** The sum of 16-bit big-endian words; `odd` says whether the data starts with the low half of a word. */
  function WordSum(odd: bool, data: seq<byte>): nat
    decreases |data|
  {
    if data == [] then 0 else (if odd then data[0] else data[0] * 0x100) + WordSum(!odd, data[1..])
  }

  predicate Odd(n: nat) {
    n % 2 == 1
  }

  /** Splitting the data anywhere, even inside a word, does not matter. */
  lemma {:induction false} WordSumConcat(odd: bool, a: seq<byte>, b: seq<byte>)
    ensures WordSum(odd, a + b) == WordSum(odd, a) + WordSum(odd != Odd(|a|), b)
    decreases |a|
  {
    if a == [] {
      assert a + b == b;
    } else {
      assert (a + b)[1..] == a[1..] + b;
      WordSumConcat(!odd, a[1..], b);
    }
  }

  lemma {:induction false} WordSumBound(odd: bool, data: seq<byte>)
    ensures WordSum(odd, data) <= if odd then 0xff + 0xffff * (|data| / 2) else 0xffff * ((|data| + 1) / 2)
    decreases |data|
  {
    if data != [] {
      WordSumBound(!odd, data[1..]);
    }
  }

  /** The folding loop: carries beyond 16 bits are added back in. */
  function Fold(n: nat): (r: nat)
    ensures r <= 0xffff
  {
    if n <= 0xffff then n else Fold(n / U16 + n % U16)
  }

  /** Folding is reduction modulo 65535, except that only 0 folds to 0. */
  lemma {:induction false} FoldIsResidue(n: nat)
    ensures Fold(n) % 0xffff == n % 0xffff
    ensures Fold(n) == 0 <==> n == 0
  {
    if n > 0xffff {
      var q, r := n / U16, n % U16;
      assert n == 0xffff * q + (q + r);
      SameResidue(q, q + r);
      FoldIsResidue(q + r);
    }
  }

  lemma SameResidue(q: nat, m: nat)
    ensures (0xffff * q + m) % 0xffff == m % 0xffff
  {}

  /** The checksum of a sum: its folded value, complemented. */
  function Complement(sum: nat): uint16 {
    0xffff - Fold(sum)
  }

  /** A sum that includes its own checksum verifies, and no other value in its place does, except that 0 and
      65535 stand for the same number. */
  lemma ChecksumVerifies(sum: nat, c: uint16)
    ensures Complement(sum + Complement(sum)) == 0
    ensures Complement(sum + c) == 0 <==> sum + c != 0 && c % 0xffff == Complement(sum) % 0xffff
  {
    FoldIsResidue(sum);
    FoldIsResidue(sum + c);
    FoldIsResidue(sum + Complement(sum));
    ResidueOfSum(sum, Fold(sum), c);
    ResidueOfSum(sum, Fold(sum), Complement(sum));
  }

  lemma ResidueOfSum(sum: nat, folded: nat, c: uint16)
    requires folded % 0xffff == sum % 0xffff && folded <= 0xffff
    ensures (sum + c) % 0xffff == 0 <==> c % 0xffff == (0xffff - folded) % 0xffff
  {
    var q := sum / 0xffff;
    var r := sum % 0xffff;
    assert sum + c == 0xffff * q + (r + c);
    SameResidue(q, r + c);
  }

  /** Two bytes written over zeros at an even offset add their 16-bit value to the sum. */
  lemma StoreAddsWord(data: seq<byte>, k: nat, c: uint16)
    requires !Odd(k) && k + 1 < |data| && data[k] == data[k + 1] == 0
    ensures WordSum(false, data[k := c / 0x100][k + 1 := c % 0x100]) == WordSum(false, data) + c
  {
    var stored := data[k := c / 0x100][k + 1 := c % 0x100];
    var front, back := data[..k], data[k + 2..];
    assert data == front + [0, 0] + back && stored == front + [c / 0x100, c % 0x100] + back;
    WordSumConcat(false, front + [0, 0], back);
    WordSumConcat(false, front, [0, 0]);
    WordSumConcat(false, front + [c / 0x100, c % 0x100], back);
    WordSumConcat(false, front, [c / 0x100, c % 0x100]);
    WordOf(0, 0);
    WordOf(c / 0x100, c % 0x100);
  }

  lemma WordOf(high: byte, low: byte)
    ensures WordSum(false, [high, low]) == high * 0x100 + low
  {
    assert [high, low][1..] == [low] && [low][1..] == [];
    assert WordSum(true, [low]) == low;
  }

  /** Storing the checksum in a zeroed field at an even offset makes the data verify, as long as the 32-bit sum
      does not overflow. */
  lemma StoredChecksumVerifies(start: nat, data: seq<byte>, k: nat)
    requires !Odd(k) && k + 1 < |data| && data[k] == data[k + 1] == 0
    requires start + 0xffff * ((|data| + 1) / 2) < U32
    ensures var c := Complement(start + WordSum(false, data));
            var stored := data[k := c / 0x100][k + 1 := c % 0x100];
            start + WordSum(false, stored) < U32 && Complement(start + WordSum(false, stored)) == 0
  {
    hide Fold, WordSum;
    var c := Complement(start + WordSum(false, data));
    var stored := data[k := c / 0x100][k + 1 := c % 0x100];
    StoreAddsWord(data, k, c);
    ChecksumVerifies(start + WordSum(false, data), c);
    WordSumBound(false, stored);
    assert start + WordSum(false, stored) == (start + WordSum(false, data)) + c;
  }

  lemma OneByteInSum(odd: bool, v: byte)
    ensures WordSum(odd, [v]) == if odd then v else v * 0x100
  {
    assert [v][1..] == [];
  }

  /** What changing one byte does to the sum. */
  lemma ChangedByte(data: seq<byte>, k: nat, v: byte)
    requires k < |data|
    ensures WordSum(false, data[k := v]) - WordSum(false, data) == (v - data[k]) * (if Odd(k) then 1 else 0x100)
  {
    hide WordSum;
    var front, back := data[..k], data[k + 1..];
    assert data == front + ([data[k]] + back) && data[k := v] == front + ([v] + back);
    WordSumConcat(false, front, [data[k]] + back);
    WordSumConcat(false, front, [v] + back);
    WordSumConcat(Odd(k), [data[k]], back);
    WordSumConcat(Odd(k), [v], back);
    OneByteInSum(Odd(k), data[k]);
    OneByteInSum(Odd(k), v);
  }

  /** A damaged byte always gives another checksum, whatever else is summed. */
  lemma DamageIsSeen(start: nat, data: seq<byte>, k: nat, v: byte)
    requires k < |data| && v != data[k]
    ensures Complement(start + WordSum(false, data[k := v])) != Complement(start + WordSum(false, data))
  {
    hide WordSum, Fold;
    var a, b := start + WordSum(false, data), start + WordSum(false, data[k := v]);
    ChangedByte(data, k, v);
    FoldIsResidue(a);
    FoldIsResidue(b);
    DifferentResidues(a, b);
  }

  lemma DifferentResidues(a: nat, b: nat)
    requires a != b && -0xffff < a - b < 0xffff
    ensures a % 0xffff != b % 0xffff
  {}

  class InternetChecksum {
    var sum: uint32
    var parity: bool

    constructor (sum: uint32)
      ensures this.sum == sum && !parity
    {
      this.sum := sum;
      parity := false;
    }

    /** The sum wraps at 32 bits, as the program's does. */
    method Add(data: seq<byte>)
      modifies this
      ensures sum == (old(sum) + WordSum(old(parity), data)) % U32
      ensures parity == (old(parity) != Odd(|data|))
    {
      ghost var exact: nat := sum;
      assert data[0..] == data;
      for k := 0 to |data|
        invariant parity == (old(parity) != Odd(k))
        invariant sum == exact % U32
        invariant exact + WordSum(parity, data[k..]) == old(sum) + WordSum(old(parity), data)
      {
        var val: uint16 := data[k];
        if !parity {
          val := val * 0x100;
        }
        assert data[k..][0] == data[k] && data[k..][1..] == data[k + 1..];
        WrapInSum(exact, val);
        exact := exact + val;
        sum := (sum + val) % U32;
        parity := !parity;
      }
    }

    static lemma WrapInSum(a: nat, b: nat)
      ensures (a % U32 + b) % U32 == (a + b) % U32
    {}

    /** Only the concatenation of the pieces matters, not where they are cut. */
    method AddAll(pieces: seq<seq<byte>>)
      modifies this
      ensures sum == (old(sum) + WordSum(old(parity), Concat(pieces))) % U32
      ensures parity == (old(parity) != Odd(|Concat(pieces)|))
    {
      var rest := pieces;
      ghost var exact: nat := sum;
      while rest != []
        invariant sum == exact % U32
        invariant (parity != Odd(|Concat(rest)|)) == (old(parity) != Odd(|Concat(pieces)|))
        invariant exact + WordSum(parity, Concat(rest)) == old(sum) + WordSum(old(parity), Concat(pieces))
        decreases |rest|
      {
        WordSumConcat(parity, rest[0], Concat(rest[1..]));
        WrapInSum(exact, WordSum(parity, rest[0]));
        exact := exact + WordSum(parity, rest[0]);
        Add(rest[0]);
        rest := rest[1..];
      }
    }

    method Value() returns (c: uint16)
      ensures c == Complement(sum)
    {
      var ret: nat := sum;
      while ret > 0xffff
        invariant Fold(ret) == Fold(sum)
        decreases ret
      {
        ret := ret / U16 + ret % U16;
      }
      c := 0xffff - ret;
    }
  }
}
