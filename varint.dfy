/**
 * Unsigned varints as used by multiformats (unsigned LEB128): seven bits
 * per byte, least significant group first, the high bit set on every byte
 * except the last.
 */
module Varint {
  import opened Wrappers
  import opened Bytes

  function Encode(n: nat): (v: seq<byte>)
    ensures |v| >= 1 && v[|v| - 1] < 128
    ensures forall i :: 0 <= i < |v| - 1 ==> v[i] >= 128
    ensures n < 128 <==> |v| == 1
    decreases n
  {
    if n < 128 then [n as byte] else [(128 + n % 128) as byte] + Encode(n / 128)
  }

  /** The value of the varint at the front of `s` and the number of bytes it takes, or None if `s` ends inside it. */
  function Read(s: seq<byte>): (r: Option<(nat, nat)>)
    ensures r.Some? ==> 1 <= r.value.1 <= |s|
  {
    if s == [] then None
    else if s[0] < 128 then Some((s[0] as nat, 1))
    else match Read(s[1..])
      case None => None
      case Some((v, k)) => Some(((s[0] - 128) as nat + 128 * v, k + 1))
  }

  /** A varint is read back whole, whatever follows it. */
  lemma {:induction false} ReadEncode(n: nat, rest: seq<byte>)
    ensures Read(Encode(n) + rest) == Some((n, |Encode(n)|))
    decreases n
  {
    if n >= 128 {
      var s := Encode(n) + rest;
      assert s[1..] == Encode(n / 128) + rest;
      ReadEncode(n / 128, rest);
      assert s[0] >= 128 && (s[0] - 128) as nat == n % 128;
      assert Read(s[1..]) == Some((n / 128, |Encode(n / 128)|));
    }
  }
}
