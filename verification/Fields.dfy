/** The byte-array helpers both protocol implementations are written with. */
module Fields {
  import opened Bytes
  import opened Wire

  /** Nothing outside `p[at..at + n]` has changed. */
  twostate predicate OnlyAt(p: array<byte>, at: nat, n: nat)
    reads p
  {
    forall i :: 0 <= i < p.Length && !(at <= i < at + n) ==> p[i] == old(p[i])
  }

  method PutBe16(p: array<byte>, at: nat, v: nat)
    requires at + 2 <= p.Length && v <= MAX_FRAME
    modifies p
    ensures p[at..at + 2] == Be(2, v) && OnlyAt(p, at, 2)
  {
    p[at], p[at + 1] := v / 256, v % 256;
    assert Be(1, v / 256) == Be(0, v / 256 / 256) + [v / 256];
  }

  method PutBe64(p: array<byte>, at: nat, v: nat)
    requires at + 8 <= p.Length
    modifies p
    ensures p[at..at + 8] == Be(8, v) && OnlyAt(p, at, 8)
  {
    var u, i := v, 8;
    while i > 0
      invariant 0 <= i <= 8
      invariant Be(8, v) == Be(i, u) + p[at + i..at + 8]
      invariant OnlyAt(p, at, 8)
    {
      i := i - 1;
      ghost var done := p[at + i + 1..at + 8];
      p[at + i] := u % 256;
      assert p[at + i..at + 8] == [u % 256] + done;
      Regroup(Be(i, u / 256), [u % 256], done);
      u := u / 256;
    }
  }

  method GetBe16(p: array<byte>, at: nat) returns (v: nat)
    requires at + 2 <= p.Length
    ensures v == Rd(p[at..at + 2])
  {
    var hi: int, lo: int := p[at], p[at + 1];
    v := hi * 256 + lo;
    ghost var b := p[at..at + 2];
    assert Rd(b[..1]) == Rd(b[..1][..0]) * 256 + b[..1][0];
  }

  method GetBe64(p: array<byte>, at: nat) returns (v: nat)
    requires at + 8 <= p.Length
    ensures v == Rd(p[at..at + 8])
  {
    v := 0;
    for i := 0 to 8
      invariant v == Rd(p[at..at + i])
    {
      assert p[at..at + i + 1][..i] == p[at..at + i];
      v := v * 256 + p[at + i];
    }
  }

  method CopyInto(p: array<byte>, at: nat, b: bytes)
    requires at + |b| <= p.Length
    modifies p
    ensures p[at..at + |b|] == b && OnlyAt(p, at, |b|)
  {
    for i := 0 to |b|
      invariant p[at..at + i] == b[..i] && OnlyAt(p, at, |b|)
    {
      p[at + i] := b[i];
    }
  }

  /** The frame header, written field by field. */
  method PutHeader(out: array<byte>, frameLen: nat, ctr: nat)
    requires HEADER_LEN <= out.Length && frameLen <= MAX_FRAME
    modifies out
    ensures out[..12] == Header(frameLen, ctr)
  {
    PutBe16(out, 0, frameLen);
    out[2] := TYPE_DATA;
    out[3] := 0;
    PutBe64(out, 4, ctr);
    assert out[..2] == Be(2, frameLen);
    assert out[..12] == out[..2] + [out[2], out[3]] + out[4..12];
  }

  method BuildNonce(dir: byte, ctr: nat) returns (nonce: array<byte>)
    ensures fresh(nonce) && nonce[..] == Nonce(dir, ctr)
  {
    nonce := new byte[12](_ => 0);
    nonce[0] := dir;
    PutBe64(nonce, 1, ctr);
    nonce[9], nonce[10], nonce[11] := 0, 0, 0;
    assert nonce[..] == [nonce[0]] + nonce[1..9] + [nonce[9], nonce[10], nonce[11]];
  }
}
