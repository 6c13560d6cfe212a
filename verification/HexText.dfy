/** What hex text looks like, told by the position of its digits. */
module HexText {
  import opened Bytes
  import opened Hex

  /** `0123456789abcdef` */
  const LOWER: bytes := [48, 49, 50, 51, 52, 53, 54, 55, 56, 57, 97, 98, 99, 100, 101, 102]

  /** `0123456789ABCDEF` */
  const UPPER: bytes := [48, 49, 50, 51, 52, 53, 54, 55, 56, 57, 65, 66, 67, 68, 69, 70]

  ghost predicate StandsFor(c: byte, v: nat) {
    v < 16 && (c == LOWER[v] || c == UPPER[v])
  }

  /** A digit of either case is worth its position; no other byte is a digit. */
  lemma DigitsByPosition(c: byte)
    ensures Nibble(c) == -1 <==> c !in LOWER && c !in UPPER
    ensures forall v: nat :: StandsFor(c, v) <==> Nibble(c) == v
  {
    forall v: nat
      ensures StandsFor(c, v) <==> Nibble(c) == v
    {
      if v < 16 {
        DigitIsLower(v);
        assert UPPER[v] == if v < 10 then 48 + v else 55 + v;
      }
    }
    if Nibble(c) >= 0 {
      assert StandsFor(c, Nibble(c));
      assert c == LOWER[Nibble(c)] || c == UPPER[Nibble(c)];
    }
    if c in LOWER || c in UPPER {
      var v: nat :| v < 16 && (LOWER[v] == c || UPPER[v] == c);
      assert StandsFor(c, v);
    }
  }

  lemma DigitIsLower(v: nat)
    requires v < 16
    ensures Digit(v) == LOWER[v]
  {
  }

  /** The text of bytes: two lower-case digits each, the high one first. */
  lemma EncodedByPosition(b: bytes, i: nat, hi: nat, lo: nat)
    requires i < |b| && hi < 16 && lo < 16 && b[i] == 16 * hi + lo
    ensures Encode(b)[2 * i] == LOWER[hi] && Encode(b)[2 * i + 1] == LOWER[lo]
  {
    hide Encode, Digit;
    EncodeAt(b, i);
    HexPair(hi, lo);
    DigitIsLower(hi);
    DigitIsLower(lo);
  }

  /** The bytes of a text, whatever the case of each digit. */
  lemma DecodedByPosition(s: bytes, i: nat, hi: nat, lo: nat)
    requires |s| % 2 == 0 && forall k :: 0 <= k < |s| ==> s[k] in LOWER || s[k] in UPPER
    requires i < |s| / 2 && StandsFor(s[2 * i], hi) && StandsFor(s[2 * i + 1], lo)
    ensures IsHex(s) && Decode(s)[i] == 16 * hi + lo
  {
    forall k | 0 <= k < |s|
      ensures Nibble(s[k]) >= 0
    {
      DigitsByPosition(s[k]);
    }
    DigitsByPosition(s[2 * i]);
    DigitsByPosition(s[2 * i + 1]);
    DecodeAt(s, i);
  }
}
