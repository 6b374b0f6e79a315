/**
 Machine words as natural numbers: single bits, packing flags into words, and fixed-width
 two's-complement conversions. Bit k of w is what `w & (1 << k) != 0` tests, SetBit is
 `w | (1 << k)` and ClearBit is `w &^ (1 << k)`.
 */
module Bits {

  function Pow2(n: nat): (p: nat)
    ensures p >= 1
  {
    if n == 0 then 1 else 2 * Pow2(n - 1)
  }

  lemma {:induction false} Pow2Adds(a: nat, b: nat)
    ensures Pow2(a + b) == Pow2(a) * Pow2(b)
  {
    if a > 0 {
      Pow2Adds(a - 1, b);
    }
  }

  lemma Pow2Values()
    ensures Pow2(8) == 0x100
    ensures Pow2(64) == 0x1_0000_0000_0000_0000
  {
    assert Pow2(4) == 16;
    Pow2Adds(4, 4);
    Pow2Adds(8, 8);
    Pow2Adds(16, 16);
    Pow2Adds(32, 32);
  }

  function Bit(w: nat, k: nat): bool {
    if k == 0 then w % 2 == 1 else Bit(w / 2, k - 1)
  }

  function SetBit(w: nat, k: nat): nat {
    if k == 0 then w / 2 * 2 + 1 else w % 2 + 2 * SetBit(w / 2, k - 1)
  }

  function ClearBit(w: nat, k: nat): nat {
    if k == 0 then w / 2 * 2 else w % 2 + 2 * ClearBit(w / 2, k - 1)
  }

  lemma {:induction false} SetBitBits(w: nat, k: nat, j: nat)
    ensures Bit(SetBit(w, k), j) == (j == k || Bit(w, j))
  {
    if k > 0 && j > 0 {
      SetBitBits(w / 2, k - 1, j - 1);
    }
  }

  lemma {:induction false} ClearBitBits(w: nat, k: nat, j: nat)
    ensures Bit(ClearBit(w, k), j) == (j != k && Bit(w, j))
  {
    if k > 0 && j > 0 {
      ClearBitBits(w / 2, k - 1, j - 1);
    }
  }

  lemma {:induction false} BitsStayInWord(w: nat, k: nat, n: nat)
    requires k < n && w < Pow2(n)
    ensures SetBit(w, k) < Pow2(n) && ClearBit(w, k) < Pow2(n)
  {
    if k > 0 {
      BitsStayInWord(w / 2, k - 1, n - 1);
    }
  }

  /** A word is determined by its bits. */
  lemma {:induction false} BitsDetermine(a: nat, b: nat, n: nat)
    requires a < Pow2(n) && b < Pow2(n)
    requires forall k :: 0 <= k < n ==> Bit(a, k) == Bit(b, k)
    ensures a == b
  {
    if n > 0 {
      assert Bit(a, 0) == Bit(b, 0);
      forall k | 0 <= k < n - 1 ensures Bit(a / 2, k) == Bit(b / 2, k) {
        assert Bit(a, k + 1) == Bit(b, k + 1);
      }
      BitsDetermine(a / 2, b / 2, n - 1);
    }
  }

  lemma {:induction false} ZeroHasNoBits(k: nat)
    ensures !Bit(0, k)
  {
    if k > 0 {
      ZeroHasNoBits(k - 1);
    }
  }

  lemma {:induction false} OnesHaveAllBits(n: nat, k: nat)
    requires k < n
    ensures Bit(Pow2(n) - 1, k)
  {
    if k > 0 {
      assert (Pow2(n) - 1) / 2 == Pow2(n - 1) - 1;
      OnesHaveAllBits(n - 1, k - 1);
    }
  }

  /** The flags from position `from`, as the low bits of a word of n bits. */
  function Pack(flags: seq<bool>, from: nat, n: nat): (w: nat)
    ensures w < Pow2(n)
    decreases n
  {
    if n == 0 then 0
    else (if from < |flags| && flags[from] then 1 else 0) + 2 * Pack(flags, from + 1, n - 1)
  }

  lemma {:induction false} PackBits(flags: seq<bool>, from: nat, n: nat, k: nat)
    requires k < n
    ensures Bit(Pack(flags, from, n), k) == (from + k < |flags| && flags[from + k])
    decreases n
  {
    if k > 0 {
      PackBits(flags, from + 1, n - 1, k - 1);
    }
  }

  // ---------------------------------------------------------------- fixed widths

  type uint64 = x: int | 0 <= x < 0x1_0000_0000_0000_0000
  type int64 = x: int | -0x8000_0000_0000_0000 <= x < 0x8000_0000_0000_0000
  type uint32 = x: int | 0 <= x < 0x1_0000_0000
  type int32 = x: int | -0x8000_0000 <= x < 0x8000_0000

  function ToUint64(x: int): uint64 {
    x % 0x1_0000_0000_0000_0000
  }

  function ToInt64(x: int): int64 {
    var u := ToUint64(x);
    if u < 0x8000_0000_0000_0000 then u else u - 0x1_0000_0000_0000_0000
  }

  function ToUint32(x: int): uint32 {
    x % 0x1_0000_0000
  }

  function ToInt32(x: int): int32 {
    var u := ToUint32(x);
    if u < 0x8000_0000 then u else u - 0x1_0000_0000
  }

  /** Conversions between signed and unsigned words of one width lose nothing. */
  lemma WordsRoundTrip(u: uint64, s: int64, v: uint32, t: int32)
    ensures ToUint64(ToInt64(u)) == u && ToInt64(ToUint64(s)) == s
    ensures ToUint32(ToInt32(v)) == v && ToInt32(ToUint32(t)) == t
    ensures ToInt64(s) == s && ToInt32(t) == t
  {
  }
}
