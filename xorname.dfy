/**
 * Vault names: 256 pseudo-random bits kept twice, as a bit slice (first bit
 * most significant) and as a big integer.
 */
module XorNames {
  import opened Common
  import opened BigInt
  import opened Random

  const XornameBits: nat := 256

  datatype XorName = XorName(bigint: nat, bits: seq<bool>)
  {
    /** Numeric order on the integer form. */
    predicate IsLessThan(y: XorName)
    {
      bigint < y.bigint
    }

    /**
     * Sets entry `i` of the bit slice and bit `i` of the integer. The slice
     * counts from the most-significant end, the integer from the least.
     */
    function SetBit(i: nat, b: bool): (r: XorName)
      requires i < |bits|
      ensures |r.bits| == |bits| && r.bits[i] == b
      ensures forall j :: 0 <= j < |bits| && j != i ==> r.bits[j] == bits[j]
      ensures Bit(r.bigint, i) == b
      ensures forall j: nat :: j != i ==> Bit(r.bigint, j) == Bit(bigint, j)
    {
      var r := XorName(SetBitAt(bigint, i, b), bits[i := b]);
      forall j: nat ensures Bit(r.bigint, j) == if j == i then b else Bit(bigint, j) {
        SetBitAtReads(bigint, i, b, j);
      }
      r
    }

    function GetBit(i: nat): bool
      requires i < |bits|
    {
      bits[i]
    }
  }

  /** The integer `SetString(s, 2)` reads from a string of '0' and '1'. */
  function ParseBinary(s: seq<char>): nat
  {
    if s == [] then 0 else 2 * ParseBinary(s[..|s| - 1]) + (if s[|s| - 1] == '1' then 1 else 0)
  }

  lemma {:induction false} ParseBitChars(s: seq<bool>)
    ensures ParseBinary(BitChars(s)) == FromBits(s)
  {
    if s != [] {
      var n := |s| - 1;
      ParseBitChars(s[..n]);
      assert BitChars(s)[..n] == BitChars(s[..n]);
    }
  }

  /** A name as `NewXorName` builds it: 256 bits and the integer they spell. */
  ghost predicate WellFormed(x: XorName)
  {
    |x.bits| == XornameBits && x.bigint == FromBits(x.bits)
  }

  /** `NewXorName`: 256 draws of `Intn(2)`, one per bit, first draw most significant. */
  method NewXorName(rng: Prng) returns (x: XorName)
    modifies rng
    ensures WellFormed(x)
    ensures forall i :: 0 <= i < XornameBits ==> x.bits[i] == (rng.stream(old(rng.cursor) + i) % 2 == 1)
    ensures rng.cursor == old(rng.cursor) + XornameBits
  {
    var nameBits := seq(XornameBits, _ => false);
    var binaryStr: seq<char> := "";
    for i := 0 to XornameBits
      invariant |nameBits| == XornameBits && |binaryStr| == i
      invariant rng.cursor == old(rng.cursor) + i
      invariant forall j :: 0 <= j < i ==> binaryStr[j] == BinaryDigit(nameBits[j])
      invariant forall j :: 0 <= j < i ==> nameBits[j] == (rng.stream(old(rng.cursor) + j) % 2 == 1)
    {
      var bit := rng.Intn(2);
      if bit == 0 {
        nameBits := nameBits[i := false];
        binaryStr := binaryStr + "0";
      } else if bit == 1 {
        nameBits := nameBits[i := true];
        binaryStr := binaryStr + "1";
      }
    }
    assert binaryStr == BitChars(nameBits);
    ParseBitChars(nameBits);
    FromBitsBound(nameBits);
    x := XorName(ParseBinary(binaryStr), nameBits);
  }

  function Zeros(m: nat): (r: seq<char>)
    ensures |r| == m && forall i :: 0 <= i < m ==> r[i] == '0'
  {
    seq(m, _ => '0')
  }

  lemma {:induction false} PadLeftIsZeros(t: seq<char>, k: nat)
    ensures PadLeft(t, k) == if |t| >= k then t else Zeros(k - |t|) + t
    decreases k - |t|
  {
    if |t| < k {
      PadLeftIsZeros(['0'] + t, k);
      assert Zeros(k - |t| - 1) + (['0'] + t) == Zeros(k - |t|) + t;
    }
  }

  /** Appending one character commutes with padding to one more character. */
  lemma PadLeftAppend(t: seq<char>, c: char, m: nat)
    requires |t| <= m
    ensures PadLeft(t + [c], m + 1) == PadLeft(t, m) + [c]
  {
    PadLeftIsZeros(t + [c], m + 1);
    PadLeftIsZeros(t, m);
    assert Zeros(m - |t|) + (t + [c]) == (Zeros(m - |t|) + t) + [c];
  }

  /** Padding the base-2 text of a bit string's value gives the bit string back. */
  lemma {:induction false} PaddedTextSpellsBits(s: seq<bool>)
    requires |s| >= 1
    ensures PadLeft(Text2(FromBits(s)), |s|) == BitChars(s)
  {
    var k := |s|;
    var s' := s[..k - 1];
    var n' := FromBits(s');
    var bit := if s[k - 1] then 1 else 0;
    var d := BinaryDigit(s[k - 1]);
    assert FromBits(s) == 2 * n' + bit;
    assert BitChars(s) == BitChars(s') + [d];
    if k == 1 {
      assert s' == [];
      assert Text2(FromBits(s)) == [d];
    } else {
      PaddedTextSpellsBits(s');
      FromBitsBound(s');
      Text2Length(n', k - 1);
      var t := if n' == 0 then [] else Text2(n');
      assert Text2(FromBits(s)) == t + [d] by {
        if n' != 0 {
          assert FromBits(s) / 2 == n' && FromBits(s) % 2 == bit;
        }
      }
      assert PadLeft(t, k - 1) == PadLeft(Text2(n'), k - 1) by {
        if n' == 0 {
          assert Text2(n') == ['0'] == ['0'] + t;
        }
      }
      PadLeftAppend(t, d, k - 1);
    }
  }

  /** `BinaryString`: base-2 text of the integer, left-padded with '0' to 256 characters. */
  method BinaryString(x: XorName) returns (s: seq<char>)
    ensures |s| >= XornameBits && s == PadLeft(Text2(x.bigint), XornameBits)
    ensures x.bigint < Pow2(XornameBits) ==> |s| == XornameBits
    ensures WellFormed(x) ==> s == BitChars(x.bits)
  {
    s := Text2(x.bigint);
    while |s| < XornameBits
      invariant PadLeft(s, XornameBits) == PadLeft(Text2(x.bigint), XornameBits)
      invariant |s| >= |Text2(x.bigint)|
      decreases XornameBits - |s|
    {
      s := "0" + s;
    }
    if x.bigint < Pow2(XornameBits) {
      Text2Length(x.bigint, XornameBits);
      PadLeftIsZeros(Text2(x.bigint), XornameBits);
    }
    if WellFormed(x) {
      PaddedTextSpellsBits(x.bits);
      FromBitsBound(x.bits);
    }
  }

  /** `bigIntModInt64IsZero`: whether `i` divides `bi` (Go panics when `i` is zero). */
  function BigIntModInt64IsZero(bi: int, i: int): (r: bool)
    requires i != 0
    ensures r <==> exists k :: bi == k * i
  {
    var r := bi % i == 0;
    if r then
      assert bi == (bi / i) * i;
      r
    else
      assert forall k :: bi != k * i by {
        forall k ensures bi != k * i {
          ModOfMultiple(k, i);
        }
      }
      r
  }

  lemma ModOfMultiple(k: int, i: int)
    requires i != 0
    ensures (k * i) % i == 0
  {
    var a := k * i;
    var d := k - a / i;
    var m := a % i;
    assert a == (a / i) * i + m;
    assert d * i == m by {
      assert d * i == k * i - (a / i) * i;
    }
    if d != 0 {
      var ad := if d < 0 then -d else d;
      var ai := if i < 0 then -i else i;
      assert ad * ai == (if m < 0 then -m else m);
      MulAtLeast(ad, ai);
      assert false;
    }
  }

  lemma {:induction false} MulAtLeast(a: nat, b: nat)
    requires a >= 1
    ensures a * b >= b
  {
    if a > 1 {
      MulAtLeast(a - 1, b);
      assert a * b == (a - 1) * b + b;
    }
  }

  /** The integer order on names is a strict order. */
  lemma IsLessThanStrictOrder(x: XorName, y: XorName, z: XorName)
    ensures !x.IsLessThan(x)
    ensures x.IsLessThan(y) ==> !y.IsLessThan(x)
    ensures x.IsLessThan(y) && y.IsLessThan(z) ==> x.IsLessThan(z)
  {
  }
}
