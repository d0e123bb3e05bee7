/**
 * Base58 with the Bitcoin alphabet, as in the IETF draft
 * "The Base58 Encoding Scheme" (draft-msporny-base58), section 2 (alphabet)
 * and section 3 (encoding): the input bytes, read as one big-endian number,
 * are written in base 58 by repeated division, and every leading zero byte
 * becomes one leading '1'. Encoded text is a byte string of ASCII codes, the
 * way `base58.b58encode` returns `bytes`.
 */
module Base58 {
  import opened Wrappers
  import opened Digits
  import opened Bytes

  /**
   * The ASCII code of base-58 digit `d`. The alphabet is
   *   123456789ABCDEFGHJKLMNPQRSTUVWXYZabcdefghijkmnopqrstuvwxyz
   * that is '1'-'9', 'A'-'H', 'J'-'N', 'P'-'Z', 'a'-'k', 'm'-'z'
   * (no '0', 'O', 'I' or 'l').
   */
  function Symbol(d: nat): byte
    requires d < 58
  {
    var code :=
      if d < 9 then '1' as int + d
      else if d < 17 then 'A' as int + (d - 9)
      else if d < 22 then 'J' as int + (d - 17)
      else if d < 33 then 'P' as int + (d - 22)
      else if d < 44 then 'a' as int + (d - 33)
      else 'm' as int + (d - 44);
    code as byte
  }

  /** The digit an ASCII code stands for, if it is in the alphabet. */
  function Index(c: byte): (r: Option<nat>)
    ensures r.Some? ==> r.value < 58 && Symbol(r.value) == c
  {
    var x := c as int;
    if '1' as int <= x <= '9' as int then Some(x - '1' as int)
    else if 'A' as int <= x <= 'H' as int then Some(x - 'A' as int + 9)
    else if 'J' as int <= x <= 'N' as int then Some(x - 'J' as int + 17)
    else if 'P' as int <= x <= 'Z' as int then Some(x - 'P' as int + 22)
    else if 'a' as int <= x <= 'k' as int then Some(x - 'a' as int + 33)
    else if 'm' as int <= x <= 'z' as int then Some(x - 'm' as int + 44)
    else None
  }

  predicate IsSymbol(c: byte) {
    Index(c).Some?
  }

  /** Every digit has a symbol of its own: symbols are told apart by Index. */
  lemma IndexOfSymbol(d: nat)
    requires d < 58
    ensures Index(Symbol(d)) == Some(d)
  {}

  function Symbols(ds: seq<nat>): (t: seq<byte>)
    requires InBase(ds, 58)
    ensures |t| == |ds| && forall i :: 0 <= i < |ds| ==> t[i] == Symbol(ds[i])
  {
    seq(|ds|, i requires 0 <= i < |ds| => Symbol(ds[i]))
  }

  /** The digits the symbols of `t` stand for, or None if some byte is outside the alphabet. */
  function Values(t: seq<byte>): (r: Option<seq<nat>>)
    ensures r.Some? <==> forall i :: 0 <= i < |t| ==> IsSymbol(t[i])
    ensures r.Some? ==> InBase(r.value, 58) && Symbols(r.value) == t
  {
    if forall i :: 0 <= i < |t| ==> IsSymbol(t[i]) then
      var ds := seq(|t|, i requires 0 <= i < |t| => Index(t[i]).value);
      assert InBase(ds, 58);
      assert Symbols(ds) == t;
      Some(ds)
    else
      None
  }

  /** `b58encode`: leading zero bytes become '1', the rest is the base-58 spelling of its value. */
  function Encode(s: seq<byte>): (t: seq<byte>)
    ensures forall i :: 0 <= i < |t| ==> IsSymbol(t[i])
  {
    var zeros := CountLeading(s, 0);
    var ds := ToDigits(FromBigEndian(s[zeros..]), 58);
    forall i | 0 <= i < |ds| ensures IsSymbol(Symbol(ds[i])) {
      IndexOfSymbol(ds[i]);
    }
    Repeat(Symbol(0), zeros) + Symbols(ds)
  }

  /** `b58decode`: leading '1' become zero bytes, the rest is read as a base-58 number. */
  function Decode(t: seq<byte>): Option<seq<byte>> {
    var ones := CountLeading(t, Symbol(0));
    match Values(t[ones..])
    case None => None
    case Some(ds) => Some(Repeat(0, ones) + ToBigEndian(FromDigits(ds, 58)))
  }

  /** Reading back the symbols of canonical digits gives the digits. */
  lemma ValuesOfSymbols(ds: seq<nat>)
    requires InBase(ds, 58)
    ensures Values(Symbols(ds)) == Some(ds)
  {
    var u := Symbols(ds);
    forall i | 0 <= i < |u| ensures IsSymbol(u[i]) && Index(u[i]).value == ds[i] {
      IndexOfSymbol(ds[i]);
    }
    var vs := seq(|u|, i requires 0 <= i < |u| => Index(u[i]).value);
    assert vs == ds;
  }

  /** The spelling of a number never starts with the symbol of zero. */
  lemma SymbolsNoLeadingOne(ds: seq<nat>)
    requires InBase(ds, 58) && NoLeadingZero(ds)
    ensures Symbols(ds) == [] || Symbols(ds)[0] != Symbol(0)
  {
    if ds != [] {
      IndexOfSymbol(ds[0]);
      IndexOfSymbol(0);
    }
  }

  /** A run of '1' followed by a canonical spelling decodes to that many zero bytes and the value's bytes. */
  lemma DecodeCanonical(ones: nat, ds: seq<nat>)
    requires InBase(ds, 58) && NoLeadingZero(ds)
    ensures Decode(Repeat(Symbol(0), ones) + Symbols(ds)) == Some(Repeat(0, ones) + ToBigEndian(FromDigits(ds, 58)))
  {
    var u := Symbols(ds);
    var t := Repeat(Symbol(0), ones) + u;
    SymbolsNoLeadingOne(ds);
    CountLeadingRepeat(Symbol(0), ones, u);
    assert t[ones..] == u;
    ValuesOfSymbols(ds);
  }

  /** Decoding what was encoded gives the input back. */
  lemma DecodeEncode(s: seq<byte>)
    ensures Decode(Encode(s)) == Some(s)
  {
    var zeros := CountLeading(s, 0);
    var rest := s[zeros..];
    var n := FromBigEndian(rest);
    assert Encode(s) == Repeat(Symbol(0), zeros) + Symbols(ToDigits(n, 58));
    DecodeCanonical(zeros, ToDigits(n, 58));
    FromToDigits(n, 58);
    ToFromBigEndian(rest);
    SplitLeading(s, 0);
  }

  /** Zero bytes in front of a value's bytes encode to that many '1' in front of the value's spelling. */
  lemma EncodeCanonical(zeros: nat, rest: seq<byte>)
    requires rest == [] || rest[0] != 0
    ensures Encode(Repeat(0, zeros) + rest) == Repeat(Symbol(0), zeros) + Symbols(ToDigits(FromBigEndian(rest), 58))
  {
    var s := Repeat(0, zeros) + rest;
    CountLeadingRepeat(0, zeros, rest);
    assert s[zeros..] == rest;
  }

  /** Every text that decodes is the encoding of what it decodes to: the two are inverse bijections. */
  lemma EncodeDecode(t: seq<byte>)
    requires Decode(t).Some?
    ensures Encode(Decode(t).value) == t
  {
    var ones := CountLeading(t, Symbol(0));
    var u := t[ones..];
    var ds := Values(u).value;
    var n := FromDigits(ds, 58);
    var rest := ToBigEndian(n);
    assert Decode(t).value == Repeat(0, ones) + rest;
    EncodeCanonical(ones, rest);
    FromToBigEndian(n);
    assert NoLeadingZero(ds) by {
      if ds != [] {
        assert u[0] == Symbol(ds[0]);
      }
    }
    ToFromDigits(ds, 58);
    SplitLeading(t, Symbol(0));
  }
}
