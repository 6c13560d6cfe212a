/** components/core/src/hex.c and its copy in tools/esp-ctl/src/esp-ctl.c. */
module Hex {
  import opened Bytes

  /** The value of a hex digit of either case, or -1. */
  function Nibble(c: byte): (v: int)
    ensures -1 <= v < 16
  {
    if 48 <= c <= 57 then c - 48
    else if 97 <= c <= 102 then c - 87
    else if 65 <= c <= 70 then c - 55
    else -1
  }

  /** The lower-case digit of a value. */
  function Digit(v: nat): (c: byte)
    requires v < 16
    ensures Nibble(c) == v && c != 0
  {
    if v < 10 then 48 + v else 87 + v
  }

  function Encode(b: bytes): (s: bytes)
    ensures |s| == 2 * |b|
  {
    if b == [] then [] else [Digit(b[0] / 16), Digit(b[0] % 16)] + Encode(b[1..])
  }

  /** A text that stands for bytes: hex digits, two for each byte. */
  predicate IsHex(s: bytes) {
    |s| % 2 == 0 && forall i :: 0 <= i < |s| ==> Nibble(s[i]) >= 0
  }

  function Decode(s: bytes): (b: bytes)
    requires IsHex(s)
    ensures |b| == |s| / 2
  {
    if s == [] then [] else [Nibble(s[0]) * 16 + Nibble(s[1])] + Decode(s[2..])
  }

  lemma {:induction false} EncodeAt(b: bytes, i: nat)
    requires i < |b|
    ensures Encode(b)[2 * i] == Digit(b[i] / 16) && Encode(b)[2 * i + 1] == Digit(b[i] % 16)
    decreases |b|
  {
    if i > 0 {
      EncodeAt(b[1..], i - 1);
      var rest := Encode(b[1..]);
      assert Encode(b)[2 * i] == rest[2 * (i - 1)] && Encode(b)[2 * i + 1] == rest[2 * (i - 1) + 1];
    }
  }

  lemma {:induction false} DecodeAt(s: bytes, i: nat)
    requires IsHex(s) && i < |s| / 2
    ensures Decode(s)[i] == Nibble(s[2 * i]) * 16 + Nibble(s[2 * i + 1])
    decreases |s|
  {
    if i > 0 {
      DecodeAt(s[2..], i - 1);
      assert s[2..][2 * (i - 1)] == s[2 * i] && s[2..][2 * (i - 1) + 1] == s[2 * i + 1];
    }
  }

  /** Round trip: decoding undoes encoding. */
  lemma {:induction false} EncodeDecode(b: bytes)
    ensures IsHex(Encode(b)) && Decode(Encode(b)) == b && NulFree(Encode(b))
    decreases |b|
  {
    if b != [] {
      EncodeDecode(b[1..]);
      var s, rest := Encode(b), Encode(b[1..]);
      assert s[2..] == rest && forall i :: 2 <= i < |s| ==> s[i] == rest[i - 2];
    }
  }

  /** The converse: encoding a decoded text gives it back exactly when it was written
      in lower case. */
  lemma {:induction false} DecodeEncode(s: bytes)
    requires IsHex(s)
    ensures Encode(Decode(s)) == s <==> LowerCase(s)
    decreases |s|
  {
    if s != [] {
      var rest, hi: nat, lo: nat := s[2..], Nibble(s[0]), Nibble(s[1]);
      DecodeHead(s, hi, lo);
      EncodePair(hi, lo, Decode(rest));
      DecodeEncode(rest);
      SplitPair(s, [Digit(hi), Digit(lo)] + Encode(Decode(rest)), rest);
    }
  }

  /** Two texts agree when their first two bytes and the others do. */
  lemma SplitPair(s: bytes, t: bytes, rest: bytes)
    requires 2 <= |s| == |t| && rest == s[2..]
    ensures t == s <==> t[0] == s[0] && t[1] == s[1] && t[2..] == rest
    ensures LowerCase(s) <==> !UpperCase(s[0]) && !UpperCase(s[1]) && LowerCase(rest)
  {
    assert s == [s[0], s[1]] + s[2..] && t == [t[0], t[1]] + t[2..];
    assert forall i :: 2 <= i < |s| ==> s[i] == rest[i - 2];
    assert forall i :: 0 <= i < |rest| ==> rest[i] == s[i + 2];
  }

  lemma DecodeHead(s: bytes, hi: nat, lo: nat)
    requires IsHex(s) && s != [] && hi == Nibble(s[0]) && lo == Nibble(s[1])
    ensures IsHex(s[2..]) && Decode(s) == [hi * 16 + lo] + Decode(s[2..])
  {
  }

  lemma EncodePair(hi: nat, lo: nat, rest: bytes)
    requires hi < 16 && lo < 16
    ensures Encode([hi * 16 + lo] + rest) == [Digit(hi), Digit(lo)] + Encode(rest)
  {
    HexPair(hi, lo);
    EncodeCons(hi * 16 + lo, rest);
  }

  lemma HexPair(hi: nat, lo: nat)
    requires hi < 16 && lo < 16
    ensures (hi * 16 + lo) / 16 == hi && (hi * 16 + lo) % 16 == lo
  {
  }

  lemma EncodeCons(c: byte, rest: bytes)
    ensures Encode([c] + rest) == [Digit(c / 16), Digit(c % 16)] + Encode(rest)
  {
    assert ([c] + rest)[1..] == rest;
  }

  predicate UpperCase(c: byte) {
    65 <= c <= 70
  }

  predicate LowerCase(s: bytes) {
    forall i :: 0 <= i < |s| ==> !UpperCase(s[i])
  }

  /** hex_encode, which ends its text with a NUL. */
  method HexEncode(b: bytes, out: array<byte>)
    requires 2 * |b| < out.Length
    modifies out
    ensures StringAt(out[..], 0, Encode(b))
    ensures forall i :: 2 * |b| < i < out.Length ==> out[i] == old(out[i])
  {
    for i := 0 to |b|
      invariant forall k :: 0 <= k < 2 * i ==> out[k] == Encode(b)[k]
      invariant forall k :: 2 * i <= k < out.Length ==> out[k] == old(out[k])
    {
      EncodeAt(b, i);
      out[i * 2] := Digit(b[i] / 16);
      out[i * 2 + 1] := Digit(b[i] % 16);
    }
    EncodeDecode(b);
    out[2 * |b|] := 0;
  }

  /** hex_to_bytes: the number of bytes, or -1 when the text is no hex or too long. */
  method HexToBytes(s: bytes, out: array<byte>) returns (n: int)
    modifies out
    ensures n == if IsHex(s) && |s| / 2 <= out.Length then |s| / 2 else -1
    ensures n >= 0 ==> out[..n] == Decode(s)
    ensures forall i :: |s| / 2 <= i < out.Length ==> out[i] == old(out[i])
  {
    if |s| % 2 != 0 {
      return -1;
    }
    var need := |s| / 2;
    if need > out.Length {
      return -1;
    }
    for i := 0 to need
      invariant forall k :: 0 <= k < 2 * i ==> Nibble(s[k]) >= 0
      invariant forall k :: 0 <= k < i ==> out[k] == Nibble(s[2 * k]) * 16 + Nibble(s[2 * k + 1])
      invariant forall k :: need <= k < out.Length ==> out[k] == old(out[k])
    {
      var hi, lo := Nibble(s[i * 2]), Nibble(s[i * 2 + 1]);
      if hi < 0 || lo < 0 {
        return -1;
      }
      out[i] := hi * 16 + lo;
    }
    n := need;
    forall k | 0 <= k < n
      ensures out[k] == Decode(s)[k]
    {
      DecodeAt(s, k);
    }
  }

  /** hex_decode: exactly `size` bytes, or failure. */
  method HexDecode(s: bytes, size: nat, out: array<byte>) returns (ok: bool)
    requires out.Length == size
    modifies out
    ensures ok <==> IsHex(s) && |s| == 2 * size
    ensures ok ==> out[..] == Decode(s)
  {
    if |s| != size * 2 {
      return false;
    }
    var n := HexToBytes(s, out);
    ok := n == size;
    assert ok ==> out[..n] == out[..];
  }
}
