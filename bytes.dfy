/** Byte strings and their reading as big-endian unsigned integers. */
module Bytes {
  import opened Digits

  newtype byte = x: int | 0 <= x < 256

  /** The number of leading elements of `s` equal to `x`. */
  function CountLeading<T(==)>(s: seq<T>, x: T): (k: nat)
    ensures k <= |s|
    ensures forall i :: 0 <= i < k ==> s[i] == x
    ensures k < |s| ==> s[k] != x
  {
    if s == [] || s[0] != x then 0 else 1 + CountLeading(s[1..], x)
  }

  /** `n` copies of `x`. */
  function Repeat<T>(x: T, n: nat): (r: seq<T>)
    ensures |r| == n && forall i :: 0 <= i < n ==> r[i] == x
  {
    seq(n, _ => x)
  }

  /** A run of copies of `x` followed by something that does not start with `x` has exactly that many leading `x`. */
  lemma {:induction false} CountLeadingRepeat<T>(x: T, n: nat, rest: seq<T>)
    requires rest == [] || rest[0] != x
    ensures CountLeading(Repeat(x, n) + rest, x) == n
  {
    var s := Repeat(x, n) + rest;
    if n == 0 {
      assert s == rest;
    } else {
      assert s[1..] == Repeat(x, n - 1) + rest;
      CountLeadingRepeat(x, n - 1, rest);
    }
  }

  /** A sequence is its leading run of `x` followed by the rest. */
  lemma SplitLeading<T>(s: seq<T>, x: T)
    ensures s == Repeat(x, CountLeading(s, x)) + s[CountLeading(s, x)..]
  {
    var k := CountLeading(s, x);
    assert s[..k] == Repeat(x, k);
    assert s == s[..k] + s[k..];
  }

  function Naturals(s: seq<byte>): (ds: seq<nat>)
    ensures |ds| == |s| && InBase(ds, 256)
    ensures forall i :: 0 <= i < |s| ==> ds[i] == s[i] as nat
  {
    seq(|s|, i requires 0 <= i < |s| => s[i] as nat)
  }

  function Octets(ds: seq<nat>): (s: seq<byte>)
    requires InBase(ds, 256)
    ensures |s| == |ds| && forall i :: 0 <= i < |ds| ==> s[i] as nat == ds[i]
  {
    seq(|ds|, i requires 0 <= i < |ds| => ds[i] as byte)
  }

  /** The unsigned integer a byte string denotes, most significant byte first. */
  function FromBigEndian(s: seq<byte>): nat {
    FromDigits(Naturals(s), 256)
  }

  /** The shortest big-endian byte string of `n` (empty for 0). */
  function ToBigEndian(n: nat): (s: seq<byte>)
    ensures s == [] || s[0] != 0
  {
    Octets(ToDigits(n, 256))
  }

  lemma FromToBigEndian(n: nat)
    ensures FromBigEndian(ToBigEndian(n)) == n
  {
    var ds := ToDigits(n, 256);
    assert Naturals(Octets(ds)) == ds;
    FromToDigits(n, 256);
  }

  /** A byte string with no zero byte in front is recovered from its value. */
  lemma ToFromBigEndian(s: seq<byte>)
    requires s == [] || s[0] != 0
    ensures ToBigEndian(FromBigEndian(s)) == s
  {
    var ds := Naturals(s);
    ToFromDigits(ds, 256);
    assert Octets(ds) == s;
  }

  /** A byte string of length `k` denotes less than `256^k`. */
  lemma FromBigEndianBelow(s: seq<byte>)
    ensures FromBigEndian(s) < Pow(256, |s|)
  {
    FromDigitsBelow(Naturals(s), 256);
  }

  lemma FromBigEndianAppend(a: seq<byte>, c: seq<byte>)
    ensures FromBigEndian(a + c) == FromBigEndian(a) * Pow(256, |c|) + FromBigEndian(c)
  {
    NaturalsAppend(a, c);
    FromDigitsAppend(Naturals(a), Naturals(c), 256);
  }

  lemma NaturalsAppend(a: seq<byte>, c: seq<byte>)
    ensures Naturals(a + c) == Naturals(a) + Naturals(c)
  {
    var l, r := Naturals(a + c), Naturals(a) + Naturals(c);
    assert |l| == |r|;
    forall i | 0 <= i < |l| ensures l[i] == r[i] {
      if i < |a| { assert (a + c)[i] == a[i]; } else { assert (a + c)[i] == c[i - |a|]; }
    }
  }
}
