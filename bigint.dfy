/**
 * The part of Go's math/big that the simulator uses, on unbounded naturals:
 * reading a binary string or big-endian bytes, single-bit access, XOR and
 * base-2 text.
 */
module BigInt {
  import opened Common

  /** Value of a bit string read most-significant bit first (`SetString(s, 2)`). */
  function FromBits(s: seq<bool>): nat
  {
    if s == [] then 0 else 2 * FromBits(s[..|s| - 1]) + (if s[|s| - 1] then 1 else 0)
  }

  lemma {:induction false} FromBitsBound(s: seq<bool>)
    ensures FromBits(s) < Pow2(|s|)
  {
    if s != [] {
      FromBitsBound(s[..|s| - 1]);
    }
  }

  /** Value of big-endian bytes (`SetBytes`). */
  function FromBytes(b: seq<byte>): nat
  {
    if b == [] then 0 else 256 * FromBytes(b[..|b| - 1]) + b[|b| - 1] as nat
  }

  lemma {:induction false} FromBytesBound(b: seq<byte>)
    ensures FromBytes(b) < Pow2(8 * |b|)
  {
    if b != [] {
      var n := |b| - 1;
      FromBytesBound(b[..n]);
      Pow2Shift8(n);
    }
  }

  lemma {:induction false} Pow2Shift8(n: nat)
    ensures Pow2(8 * (n + 1)) == 256 * Pow2(8 * n)
  {
    var m := 8 * n;
    assert Pow2(m + 8) == 2 * Pow2(m + 7);
    assert Pow2(m + 7) == 2 * Pow2(m + 6);
    assert Pow2(m + 6) == 2 * Pow2(m + 5);
    assert Pow2(m + 5) == 2 * Pow2(m + 4);
    assert Pow2(m + 4) == 2 * Pow2(m + 3);
    assert Pow2(m + 3) == 2 * Pow2(m + 2);
    assert Pow2(m + 2) == 2 * Pow2(m + 1);
    assert Pow2(m + 1) == 2 * Pow2(m);
  }

  /** Bytes of all ones are the largest value of their width. */
  lemma {:induction false} AllOnesBytes(b: seq<byte>)
    requires forall i :: 0 <= i < |b| ==> b[i] == 0xFF
    ensures FromBytes(b) == Pow2(8 * |b|) - 1
  {
    if b != [] {
      var n := |b| - 1;
      AllOnesBytes(b[..n]);
      Pow2Shift8(n);
    }
  }

  /** Bit `i` of `n`, counted from the least-significant end (`big.Int.Bit`). */
  function Bit(n: nat, i: nat): bool
  {
    if i == 0 then n % 2 == 1 else Bit(n / 2, i - 1)
  }

  /** `n` with bit `i` (from the least-significant end) set to `b` (`big.Int.SetBit`). */
  function SetBitAt(n: nat, i: nat, b: bool): nat
  {
    if i == 0 then (n / 2) * 2 + (if b then 1 else 0)
    else 2 * SetBitAt(n / 2, i - 1, b) + n % 2
  }

  lemma {:induction false} SetBitAtReads(n: nat, i: nat, b: bool, j: nat)
    ensures Bit(SetBitAt(n, i, b), j) == if j == i then b else Bit(n, j)
  {
    var r := SetBitAt(n, i, b);
    if i == 0 {
      assert r / 2 == n / 2 && r % 2 == (if b then 1 else 0);
    } else {
      var r' := SetBitAt(n / 2, i - 1, b);
      assert r / 2 == r' && r % 2 == n % 2;
      if j > 0 {
        SetBitAtReads(n / 2, i - 1, b, j - 1);
      }
    }
  }

  lemma {:induction false} SetBitAtBound(n: nat, i: nat, b: bool, k: nat)
    requires n < Pow2(k) && i < k
    ensures SetBitAt(n, i, b) < Pow2(k)
  {
    assert Pow2(k) == 2 * Pow2(k - 1);
    assert n / 2 < Pow2(k - 1);
    if i > 0 {
      SetBitAtBound(n / 2, i - 1, b, k - 1);
    }
  }

  /** Bitwise exclusive or (`big.Int.Xor` on non-negative values). */
  function Xor(a: nat, b: nat): nat
    decreases a + b
  {
    if a == 0 && b == 0 then 0
    else 2 * Xor(a / 2, b / 2) + (if a % 2 != b % 2 then 1 else 0)
  }

  lemma {:induction false} XorHalves(a: nat, b: nat)
    ensures Xor(a, b) / 2 == Xor(a / 2, b / 2)
    ensures Xor(a, b) % 2 == (if a % 2 != b % 2 then 1 else 0)
  {
    if a == 0 && b == 0 {
      assert Xor(0, 0) == 0;
    }
  }

  lemma {:induction false} XorZeroLeft(b: nat)
    ensures Xor(0, b) == b
  {
    if b != 0 {
      XorZeroLeft(b / 2);
    }
  }

  lemma {:induction false} XorCommutes(a: nat, b: nat)
    ensures Xor(a, b) == Xor(b, a)
    decreases a + b
  {
    if a != 0 || b != 0 {
      XorCommutes(a / 2, b / 2);
    }
  }

  /** XOR-ing with the same value twice gives the value back. */
  lemma {:induction false} XorCancels(a: nat, b: nat)
    ensures Xor(a, Xor(a, b)) == b
    decreases a + b
  {
    var c := Xor(a, b);
    XorHalves(a, b);
    if a == 0 {
      XorZeroLeft(b);
      XorZeroLeft(c);
    } else {
      XorCancels(a / 2, b / 2);
      XorHalves(a, c);
    }
  }

  lemma {:induction false} XorBound(a: nat, b: nat, k: nat)
    requires a < Pow2(k) && b < Pow2(k)
    ensures Xor(a, b) < Pow2(k)
    decreases k
  {
    if (a != 0 || b != 0) && k > 0 {
      XorBound(a / 2, b / 2, k - 1);
    }
  }

  function BinaryDigit(b: bool): char
  {
    if b then '1' else '0'
  }

  /** Base-2 text without leading zeros, "0" for zero (`big.Int.Text(2)`). */
  function Text2(n: nat): (s: seq<char>)
    ensures |s| >= 1
  {
    if n < 2 then [BinaryDigit(n == 1)] else Text2(n / 2) + [BinaryDigit(n % 2 == 1)]
  }

  lemma {:induction false} Text2Length(n: nat, k: nat)
    requires n < Pow2(k) && k >= 1
    ensures |Text2(n)| <= k
  {
    if n >= 2 {
      Text2Length(n / 2, k - 1);
    }
  }

  /** `s` left-padded with '0' to length `k`. */
  function PadLeft(s: seq<char>, k: nat): (r: seq<char>)
    decreases k - |s|
  {
    if |s| >= k then s else PadLeft(['0'] + s, k)
  }

  function BitChars(s: seq<bool>): (r: seq<char>)
    ensures |r| == |s|
    ensures forall i :: 0 <= i < |s| ==> r[i] == BinaryDigit(s[i])
  {
    if s == [] then [] else BitChars(s[..|s| - 1]) + [BinaryDigit(s[|s| - 1])]
  }
}
