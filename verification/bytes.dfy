/**
 * Byte sequences and the two ways of reading a group of bytes as an
 * unsigned number: most significant byte first (big-endian, network order)
 * and least significant byte first (little-endian, native order).
 */
module Bytes {

  type Byte = bv8

  /** Exchanges the bytes at positions `i` and `j`, as `<[u8]>::swap` does. */
  function Swap(s: seq<Byte>, i: nat, j: nat): (r: seq<Byte>)
    requires i < |s| && j < |s|
    ensures |r| == |s|
    ensures r[i] == s[j] && r[j] == s[i]
    ensures forall k | 0 <= k < |s| && k != i && k != j :: r[k] == s[k]
  {
    s[i := s[j]][j := s[i]]
  }

  /** A swap only moves bytes around: the same bytes, as often each. */
  lemma SwapPermutes(s: seq<Byte>, i: nat, j: nat)
    requires i < |s| && j < |s|
    ensures multiset(Swap(s, i, j)) == multiset(s)
  {
  }

  /** The bytes of `s` in the opposite order. */
  function Reverse(s: seq<Byte>): (r: seq<Byte>)
    ensures |r| == |s|
    ensures forall k | 0 <= k < |s| :: r[k] == s[|s| - 1 - k]
  {
    if |s| == 0 then [] else [s[|s| - 1]] + Reverse(s[..|s| - 1])
  }

  /** 256 raised to the power `n`: one more than the largest `n`-byte number. */
  function Pow256(n: nat): (p: nat)
    ensures p >= 1
  {
    if n == 0 then 1 else 256 * Pow256(n - 1)
  }

  /** The number whose big-endian encoding is `s`. */
  function BigEndian(s: seq<Byte>): (v: nat)
    ensures v < Pow256(|s|)
  {
    if |s| == 0 then 0
    else
      var high := BigEndian(s[..|s| - 1]);
      assert high <= Pow256(|s| - 1) - 1;
      high * 256 + s[|s| - 1] as nat
  }

  /** The number whose little-endian encoding is `s`. */
  function LittleEndian(s: seq<Byte>): (v: nat)
    ensures v < Pow256(|s|)
  {
    if |s| == 0 then 0
    else
      var high := LittleEndian(s[1..]);
      assert high <= Pow256(|s| - 1) - 1;
      s[0] as nat + 256 * high
  }

  /** Two groups of the same length with the same big-endian value are
      the same bytes. */
  lemma {:induction false} BigEndianInjective(s: seq<Byte>, t: seq<Byte>)
    requires |s| == |t|
    requires BigEndian(s) == BigEndian(t)
    ensures s == t
  {
    if |s| > 0 {
      var n := |s|;
      var hs, ht := BigEndian(s[..n - 1]), BigEndian(t[..n - 1]);
      var ls, lt := s[n - 1] as nat, t[n - 1] as nat;
      assert hs * 256 + ls == ht * 256 + lt;
      DivModOfDigit(hs, ls);
      DivModOfDigit(ht, lt);
      BigEndianInjective(s[..n - 1], t[..n - 1]);
      assert s == s[..n - 1] + [s[n - 1]];
      assert t == t[..n - 1] + [t[n - 1]];
    }
  }

  /** Splitting `high * 256 + low` back into its two parts. */
  lemma DivModOfDigit(high: nat, low: nat)
    requires low < 256
    ensures (high * 256 + low) / 256 == high
    ensures (high * 256 + low) % 256 == low
  {
  }

  /** Reading a reversed group little-endian gives the same number as
      reading the group big-endian. */
  lemma {:induction false} LittleEndianOfReverse(s: seq<Byte>)
    ensures LittleEndian(Reverse(s)) == BigEndian(s)
  {
    if |s| > 0 {
      var n := |s|;
      var rest := Reverse(s[..n - 1]);
      assert Reverse(s) == [s[n - 1]] + rest;
      assert ([s[n - 1]] + rest)[1..] == rest;
      LittleEndianOfReverse(s[..n - 1]);
    }
  }

  /** The converse reading: a reversed group read big-endian gives the
      group's little-endian value. */
  lemma BigEndianOfReverse(s: seq<Byte>)
    ensures BigEndian(Reverse(s)) == LittleEndian(s)
  {
    LittleEndianOfReverse(Reverse(s));
    assert Reverse(Reverse(s)) == s;
  }
}
