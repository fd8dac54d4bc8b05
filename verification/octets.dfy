/** Octets and the network-order integers that the wire formats are made of. */
module Octets {

  newtype byte = x: int | 0 <= x < 256

  /** The eight bits of an octet. */
  function Bits(b: byte): bv8 { b as bv8 }

  function FromBits(v: bv8): byte { v as byte }

  /** Every number below 256 is the value of some eight bits; found by counting up to it. */
  lemma {:induction false} BitsOf(n: int) returns (v: bv8)
    requires 0 <= n < 256
    ensures v as int == n
  {
    if n == 0 {
      v := 0;
    } else {
      v := BitsOf(n - 1);
      Successor(v);
      v := v + 1;
    }
  }

  lemma Successor(v: bv8)
    requires v as int < 255
    ensures (v + 1) as int == v as int + 1
  {
    assert 255 as bv8 as int == 255;
  }

  lemma BitsRoundTrip(b: byte)
    ensures FromBits(Bits(b)) == b
  {
    var v := BitsOf(b as int);
    FromBitsRoundTrip(v);
    assert FromBits(v) == b;
  }

  lemma FromBitsRoundTrip(v: bv8)
    ensures Bits(FromBits(v)) == v
  {
  }

  lemma BitsInjective(a: byte, b: byte)
    requires Bits(a) == Bits(b)
    ensures a == b
  {
    BitsRoundTrip(a);
    BitsRoundTrip(b);
  }

  function Xor(a: byte, b: byte): byte { FromBits(Bits(a) ^ Bits(b)) }

  /** The masked octet has exactly the bits in which the two differ. */
  lemma XorBits(a: byte, b: byte)
    ensures Bits(Xor(a, b)) == Bits(a) ^ Bits(b)
    ensures Xor(a, 0) == a
  {
    FromBitsRoundTrip(Bits(a) ^ Bits(b));
    assert Bits(a) ^ Bits(0) == Bits(a);
    BitsRoundTrip(a);
  }

  /** Masking twice with the same octet changes nothing. */
  lemma XorCancels(a: byte, k: byte)
    ensures Xor(Xor(a, k), k) == a
  {
    FromBitsRoundTrip(Bits(a) ^ Bits(k));
    assert (Bits(a) ^ Bits(k)) ^ Bits(k) == Bits(a);
    BitsRoundTrip(a);
  }

  /** The 16-bit big-endian integer stored at offset `i`. */
  function Get16(s: seq<byte>, i: nat): (n: nat)
    requires i + 2 <= |s|
    ensures n < 0x1_0000
  {
    s[i] as nat * 256 + s[i + 1] as nat
  }

  /** The big-endian octets of `n` truncated to 16 bits, as a C cast to `uint16_t` does. */
  function Put16(n: nat): (s: seq<byte>)
    ensures |s| == 2
  {
    [(n / 256 % 256) as byte, (n % 256) as byte]
  }

  lemma Put16Get16(n: nat)
    ensures Get16(Put16(n), 0) == n % 0x1_0000
  {
  }

  lemma Get16Put16(s: seq<byte>, i: nat)
    requires i + 2 <= |s|
    ensures Put16(Get16(s, i)) == s[i..i + 2]
  {
  }

  function Get32(s: seq<byte>, i: nat): (n: nat)
    requires i + 4 <= |s|
    ensures n < 0x1_0000_0000
  {
    Get16(s, i) * 0x1_0000 + Get16(s, i + 2)
  }

  function Put32(n: nat): (s: seq<byte>)
    ensures |s| == 4
  {
    Put16(n / 0x1_0000) + Put16(n)
  }

  lemma Put32Get32(n: nat)
    requires n < 0x1_0000_0000
    ensures Get32(Put32(n), 0) == n
  {
    Put16Get16(n / 0x1_0000);
    Put16Get16(n);
  }

  /** Two stored 32-bit integers are equal exactly when their octets are. */
  lemma Get32Injective(s: seq<byte>, i: nat, t: seq<byte>, j: nat)
    requires i + 4 <= |s| && j + 4 <= |t|
    ensures Get32(s, i) == Get32(t, j) <==> s[i..i + 4] == t[j..j + 4]
  {
    if Get32(s, i) == Get32(t, j) {
      assert s[i] == t[j] && s[i + 1] == t[j + 1] && s[i + 2] == t[j + 2] && s[i + 3] == t[j + 3];
    }
    if s[i..i + 4] == t[j..j + 4] {
      Slice4(s, i);
      Slice4(t, j);
    }
  }

  /** Network order: the most significant octet comes first. */
  lemma NetworkOrder(s: seq<byte>, i: nat)
    requires i + 4 <= |s|
    ensures Get16(s, i) == s[i] as nat * 256 + s[i + 1] as nat
    ensures Get32(s, i) == ((s[i] as nat * 256 + s[i + 1] as nat) * 256 + s[i + 2] as nat) * 256 + s[i + 3] as nat
    ensures Put32(Get32(s, i)) == s[i..i + 4] && Put16(Get16(s, i)) == s[i..i + 2]
  {
    Slice4(s, i);
  }

  lemma SamePrefix16(m: seq<byte>, len: nat, i: nat)
    requires i + 2 <= len <= |m|
    ensures Get16(m[..len], i) == Get16(m, i)
  {
  }

  lemma SliceOfSlice<T>(s: seq<T>, a: nat, b: nat, c: nat, d: nat)
    requires a <= b <= |s| && c <= d <= b - a
    ensures s[a..b][c..d] == s[a + c..a + d]
  {
    var x, y := s[a..b][c..d], s[a + c..a + d];
    assert |x| == |y|;
    forall i | 0 <= i < |x|
      ensures x[i] == y[i]
    {
      assert x[i] == s[a..b][c + i] == s[a + (c + i)];
    }
  }

  lemma Slice4<T>(s: seq<T>, i: nat)
    requires i + 4 <= |s|
    ensures s[i..i + 4] == [s[i], s[i + 1], s[i + 2], s[i + 3]]
  {
  }

  /* ---------- C strings ---------- */

  /** The octets before the first zero, as strlen counts them. */
  function CString(s: seq<byte>): (r: seq<byte>)
    ensures r <= s && 0 !in r
    ensures |r| < |s| ==> s[|r|] == 0
  {
    if s == [] || s[0] == 0 then [] else [s[0]] + CString(s[1..])
  }
}
