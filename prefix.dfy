/**
 * Section prefixes: bit strings of length 0 to 256 naming a subtree of the
 * name space, each with a canonical byte-string key: the decimal bit length
 * followed by the bits packed most-significant first into zero-padded bytes.
 */
module Prefixes {
  import opened Common
  import opened BigInt
  import opened XorNames

  type Key = seq<byte>

  /** Decimal digits of `n` as ASCII bytes (`strconv.Itoa`). */
  function Itoa(n: nat): (s: seq<byte>)
    ensures |s| >= 1
  {
    if n < 10 then [(48 + n) as byte] else Itoa(n / 10) + [(48 + n % 10) as byte]
  }

  /** `totalBytes`: the number of bytes the packed bits need. */
  function TotalBytes(len: nat): (r: nat)
    ensures 8 * r >= len
    ensures r > 0 ==> 8 * (r - 1) < len
  {
    var r := len / 8;
    if len > 0 && len % 8 != 0 then r + 1 else r
  }

  /** Bit `j` as the key sees it: bits past the end read as zero. */
  function PaddedBit(bits: seq<bool>, j: nat): nat
  {
    if j < |bits| && bits[j] then 1 else 0
  }

  /** The value `setKey`'s inner loop has built after `count` bits starting at `start`. */
  function ChunkValue(bits: seq<bool>, start: nat, count: nat): nat
  {
    if count == 0 then 0 else 2 * ChunkValue(bits, start, count - 1) + PaddedBit(bits, start + count - 1)
  }

  lemma {:induction false} ChunkValueBound(bits: seq<bool>, start: nat, count: nat)
    ensures ChunkValue(bits, start, count) < Pow2(count)
  {
    if count > 0 {
      ChunkValueBound(bits, start, count - 1);
    }
  }

  lemma Pow2Of8()
    ensures Pow2(8) == 256
  {
    assert Pow2(1) == 2;
    assert Pow2(2) == 4;
    assert Pow2(4) == 2 * Pow2(3) == 16;
    assert Pow2(8) == 2 * Pow2(7) == 4 * Pow2(6) == 8 * Pow2(5) == 16 * Pow2(4);
  }

  function ByteAt(bits: seq<bool>, i: nat): byte
  {
    ChunkValueBound(bits, 8 * i, 8);
    Pow2Of8();
    ChunkValue(bits, 8 * i, 8) as byte
  }

  function PackedBytes(bits: seq<bool>): (r: seq<byte>)
    ensures |r| == TotalBytes(|bits|)
  {
    seq(TotalBytes(|bits|), i requires 0 <= i => ByteAt(bits, i))
  }

  /** The canonical key of a bit string. */
  function KeyOf(bits: seq<bool>): Key
  {
    Itoa(|bits|) + PackedBytes(bits)
  }

  /** A key spells the bit count in decimal, then one byte for each started group of eight bits, in order. */
  lemma KeyLayout(bits: seq<bool>)
    ensures |KeyOf(bits)| == |Itoa(|bits|)| + TotalBytes(|bits|)
    ensures KeyOf(bits)[..|Itoa(|bits|)|] == Itoa(|bits|)
    ensures forall i :: 0 <= i < TotalBytes(|bits|) ==> KeyOf(bits)[|Itoa(|bits|)| + i] == ByteAt(bits, i)
  {
  }

  datatype Prefix = Prefix(bits: seq<bool>, key: Key)
  {
    /** The key is the one `setKey` computes for the bits. */
    predicate WellFormed()
    {
      key == KeyOf(bits)
    }

    /** `Equals` compares keys. */
    predicate Equals(q: Prefix)
    {
      key == q.key
    }
  }

  function MakePrefix(bits: seq<bool>): (p: Prefix)
    ensures p.bits == bits && p.WellFormed()
  {
    Prefix(bits, KeyOf(bits))
  }

  /** `NewBlankPrefix`: no bits; it matches every name. */
  function NewBlankPrefix(): (p: Prefix)
    ensures |p.bits| == 0 && p.WellFormed()
    ensures forall x: XorName :: IsPrefixOf(p.bits, x.bits)
  {
    MakePrefix([])
  }

  /** What `extendLeft` returns. */
  function Left(p: Prefix): Prefix
  {
    MakePrefix(p.bits + [false])
  }

  /** What `extendRight` returns. */
  function Right(p: Prefix): Prefix
  {
    MakePrefix(p.bits + [true])
  }

  /** `parent`: drops the last bit (Go panics on a blank prefix). */
  function Parent(p: Prefix): (a: Prefix)
    requires |p.bits| > 0
    ensures |a.bits| == |p.bits| - 1 && IsPrefixOf(a.bits, p.bits) && a.WellFormed()
  {
    MakePrefix(p.bits[..|p.bits| - 1])
  }

  /** `sibling`: the same length with the last bit flipped. */
  function Sibling(p: Prefix): (s: Prefix)
    requires |p.bits| > 0
    ensures |s.bits| == |p.bits| && s.WellFormed()
    ensures s.bits[..|p.bits| - 1] == p.bits[..|p.bits| - 1]
    ensures s.bits[|p.bits| - 1] == !p.bits[|p.bits| - 1]
  {
    MakePrefix(p.bits[|p.bits| - 1 := !p.bits[|p.bits| - 1]])
  }

  /** `setKey`: packs the bits eight at a time, first bit highest, and prefixes the decimal length. */
  method SetKey(p: Prefix) returns (q: Prefix)
    ensures q.bits == p.bits && q.key == KeyOf(p.bits)
  {
    var totalBytes := TotalBytes(|p.bits|);
    var bytes: seq<byte> := seq(totalBytes, _ => 0);
    for i := 0 to totalBytes
      invariant |bytes| == totalBytes
      invariant forall t :: 0 <= t < i ==> bytes[t] == ByteAt(p.bits, t)
    {
      var thisByte: byte := 0;
      var startBit := i * 8;
      var endBit := (i + 1) * 8;
      for j := startBit to endBit
        invariant thisByte as nat == ChunkValue(p.bits, startBit, j - startBit)
      {
        ChunkValueBound(p.bits, startBit, j - startBit);
        Pow2Monotone(j - startBit, 7);
        assert Pow2(7) == 128 by { Pow2Of8(); }
        thisByte := thisByte * 2;
        if j < |p.bits| && p.bits[j] {
          thisByte := thisByte + 1;
        }
      }
      bytes := bytes[i := thisByte];
    }
    q := Prefix(p.bits, Itoa(|p.bits|) + bytes);
  }

  /** `extendLeft`: a copy one bit longer whose new last bit is 0. */
  method ExtendLeft(p: Prefix) returns (l: Prefix)
    ensures |l.bits| == |p.bits| + 1 && l.bits[..|p.bits|] == p.bits && !l.bits[|p.bits|]
    ensures l.WellFormed() && l == Left(p)
  {
    var newBits := seq(|p.bits| + 1, _ => false);
    for i := 0 to |p.bits|
      invariant |newBits| == |p.bits| + 1 && !newBits[|p.bits|]
      invariant newBits[..i] == p.bits[..i]
    {
      newBits := newBits[i := p.bits[i]];
    }
    assert newBits == p.bits + [false];
    l := SetKey(Prefix(newBits, []));
  }

  /** `extendRight`: a copy one bit longer whose new last bit is 1. */
  method ExtendRight(p: Prefix) returns (r: Prefix)
    ensures |r.bits| == |p.bits| + 1 && r.bits[..|p.bits|] == p.bits && r.bits[|p.bits|]
    ensures r.WellFormed() && r == Right(p)
  {
    var newBits := seq(|p.bits| + 1, _ => false);
    for i := 0 to |p.bits|
      invariant |newBits| == |p.bits| + 1
      invariant newBits[..i] == p.bits[..i]
    {
      newBits := newBits[i := p.bits[i]];
    }
    newBits := newBits[|newBits| - 1 := true];
    assert newBits == p.bits + [true];
    r := SetKey(Prefix(newBits, []));
  }

  /** `Prefix.BinaryString`: one '0' or '1' per bit. */
  method BinaryString(p: Prefix) returns (s: seq<char>)
    ensures |s| == |p.bits|
    ensures forall i :: 0 <= i < |s| ==> s[i] == (if p.bits[i] then '1' else '0')
  {
    s := "";
    for i := 0 to |p.bits|
      invariant |s| == i
      invariant forall k :: 0 <= k < i ==> s[k] == (if p.bits[k] then '1' else '0')
    {
      if p.bits[i] {
        s := s + "1";
      } else {
        s := s + "0";
      }
    }
  }

  /** `Matches`: the prefix is no longer than the name and agrees with its leading bits. */
  method Matches(p: Prefix, x: XorName) returns (r: bool)
    ensures r == IsPrefixOf(p.bits, x.bits)
  {
    if |p.bits| > |x.bits| {
      return false;
    }
    for i := 0 to |p.bits|
      invariant p.bits[..i] == x.bits[..i]
    {
      if p.bits[i] != x.bits[i] {
        return false;
      }
    }
    assert p.bits[..|p.bits|] == p.bits;
    return true;
  }

  // ---------------------------------------------------------------------
  // The key is canonical.

  lemma {:induction false} ItoaLengthMonotone(m: nat, n: nat)
    requires m <= n
    ensures |Itoa(m)| <= |Itoa(n)|
  {
    if m >= 10 {
      ItoaLengthMonotone(m / 10, n / 10);
    }
  }

  lemma {:induction false} ItoaInjective(m: nat, n: nat)
    requires Itoa(m) == Itoa(n)
    ensures m == n
  {
    if m >= 10 && n >= 10 {
      var a, b := Itoa(m / 10), Itoa(n / 10);
      assert Itoa(m)[..|a|] == a;
      assert |a| == |b|;
      assert Itoa(n)[..|b|] == b;
      ItoaInjective(m / 10, n / 10);
    }
  }

  lemma {:induction false} ChunkValueInjective(a: seq<bool>, b: seq<bool>, start: nat, count: nat)
    requires |a| == |b| && ChunkValue(a, start, count) == ChunkValue(b, start, count)
    ensures forall j :: start <= j < start + count && j < |a| ==> a[j] == b[j]
  {
    if count > 0 {
      ChunkValueInjective(a, b, start, count - 1);
    }
  }

  /** Different bit strings never share a key, whatever their lengths. */
  lemma KeyOfInjective(a: seq<bool>, b: seq<bool>)
    requires KeyOf(a) == KeyOf(b)
    ensures a == b
  {
    var da, db := |Itoa(|a|)|, |Itoa(|b|)|;
    if da == db {
      assert Itoa(|a|) == KeyOf(a)[..da];
      assert Itoa(|b|) == KeyOf(b)[..db];
      ItoaInjective(|a|, |b|);
    } else if da < db {
      if |b| <= |a| {
        ItoaLengthMonotone(|b|, |a|);
      }
      assert false;
    } else {
      if |a| <= |b| {
        ItoaLengthMonotone(|a|, |b|);
      }
      assert false;
    }
    assert |a| == |b|;
    assert PackedBytes(a) == KeyOf(a)[da..] == KeyOf(b)[da..] == PackedBytes(b);
    forall j | 0 <= j < |a| ensures a[j] == b[j] {
      var t := j / 8;
      assert PackedBytes(a)[t] == PackedBytes(b)[t];
      ChunkValueInjective(a, b, 8 * t, 8);
    }
  }

  /** `Equals` holds exactly when the bits are the same. */
  lemma EqualsIffSameBits(p: Prefix, q: Prefix)
    requires p.WellFormed() && q.WellFormed()
    ensures p.Equals(q) <==> p.bits == q.bits
  {
    if p.Equals(q) {
      KeyOfInjective(p.bits, q.bits);
    }
  }

  // ---------------------------------------------------------------------
  // Parent, sibling and extension.

  lemma ParentUndoesExtension(p: Prefix)
    requires p.WellFormed()
    ensures Parent(Left(p)) == p && Parent(Right(p)) == p
  {
    assert (p.bits + [false])[..|p.bits|] == p.bits;
    assert (p.bits + [true])[..|p.bits|] == p.bits;
  }

  lemma SiblingFacts(p: Prefix)
    requires p.WellFormed() && |p.bits| > 0
    ensures Sibling(Sibling(p)) == p
    ensures Sibling(Left(p)) == Right(p) && Sibling(Right(p)) == Left(p)
    ensures Parent(Sibling(p)) == Parent(p)
  {
    var n := |p.bits| - 1;
    assert Sibling(Sibling(p)).bits == p.bits;
    assert Sibling(Left(p)).bits == p.bits + [true];
    assert Sibling(Right(p)).bits == p.bits + [false];
    assert Sibling(p).bits[..n] == p.bits[..n];
  }

  /** Of a matching prefix's two extensions, exactly the one along the name's next bit matches. */
  lemma ExactlyOneExtensionMatches(p: seq<bool>, x: seq<bool>)
    requires IsPrefixOf(p, x) && |p| < |x|
    ensures IsPrefixOf(p + [false], x) != IsPrefixOf(p + [true], x)
    ensures IsPrefixOf(p + [x[|p|]], x)
  {
    var c := x[|p|];
    assert x[..|p| + 1] == p + [c];
    forall b: bool ensures IsPrefixOf(p + [b], x) <==> b == c {
      if IsPrefixOf(p + [b], x) {
        assert (p + [b])[|p|] == b;
      }
    }
  }

  /** An extension matches only names its parent matches; a prefix longer than a name never matches it. */
  lemma ExtensionMatchFacts(p: seq<bool>, b: bool, x: seq<bool>)
    ensures IsPrefixOf(p + [b], x) ==> IsPrefixOf(p, x)
    ensures |p| > |x| ==> !IsPrefixOf(p, x)
  {
    if IsPrefixOf(p + [b], x) {
      assert x[..|p|] == x[..|p| + 1][..|p|];
    }
  }
}
