/** The frames of espshell/1, byte by byte. */
module WireBytes {
  import opened Bytes
  import opened Wire

  /** The number that eight bytes stand for, the most significant first. */
  function Value8(b: bytes): int
    requires |b| == 8
  {
    ((((((b[0] as int * 256 + b[1]) * 256 + b[2]) * 256 + b[3]) * 256 + b[4]) * 256 + b[5]) * 256 + b[6]) * 256 + b[7]
  }

  function Value2(b: bytes): int
    requires |b| == 2
  {
    b[0] as int * 256 + b[1]
  }

  lemma RdStep(b: bytes, n: nat)
    requires n < |b|
    ensures Rd(b[..n + 1]) == Rd(b[..n]) * 256 + b[n]
  {
    assert b[..n + 1][..n] == b[..n];
  }

  lemma EightBytes(b: bytes)
    requires |b| == 8
    ensures Rd(b) == Value8(b)
  {
    assert b[..8] == b;
    RdStep(b, 0);
    RdStep(b, 1);
    RdStep(b, 2);
    RdStep(b, 3);
    RdStep(b, 4);
    RdStep(b, 5);
    RdStep(b, 6);
    RdStep(b, 7);
  }

  lemma TwoBytes(b: bytes)
    requires |b| == 2
    ensures Rd(b) == Value2(b)
  {
    assert b[..2] == b;
    RdStep(b, 0);
    RdStep(b, 1);
  }

  /** Direction, counter, three zero bytes. */
  ghost predicate IsNonce(n: bytes, dir: byte, ctr: nat) {
    |n| == 12 && n[0] == dir && Value8(n[1..9]) == ctr && n[9..] == [0, 0, 0]
  }

  /** Length, type 1, no flags, counter. */
  ghost predicate IsHeader(h: bytes, frameLen: nat, ctr: nat) {
    |h| == 12 && Value2(h[..2]) == frameLen && h[2] == 1 && h[3] == 0 && Value8(h[4..12]) == ctr
  }

  lemma EightDecide(a: bytes, v: nat)
    requires |a| == 8 && v < TWO_64
    ensures Value8(a) == v <==> a == Be(8, v)
  {
    EightBytes(a);
    Be64RoundTrip(v, a);
  }

  lemma TwoDecide(a: bytes, v: nat)
    requires |a| == 2 && v <= MAX_FRAME
    ensures Value2(a) == v <==> a == Be(2, v)
  {
    TwoBytes(a);
    Be16RoundTrip(v);
    BeRd(a);
  }

  lemma NonceByBytes(n: bytes, dir: byte, ctr: nat)
    requires ctr < TWO_64
    ensures n == Nonce(dir, ctr) <==> IsNonce(n, dir, ctr)
  {
    if |n| == 12 {
      EightDecide(n[1..9], ctr);
      var m := Nonce(dir, ctr);
      assert m[0] == dir && m[1..9] == Be(8, ctr) && m[9..] == [0, 0, 0];
      assert n == [n[0]] + n[1..9] + n[9..];
    }
  }

  lemma HeaderByBytes(h: bytes, frameLen: nat, ctr: nat)
    requires frameLen <= MAX_FRAME && ctr < TWO_64
    ensures h == Header(frameLen, ctr) <==> IsHeader(h, frameLen, ctr)
  {
    if |h| == 12 {
      TwoDecide(h[..2], frameLen);
      EightDecide(h[4..12], ctr);
      var g := Header(frameLen, ctr);
      assert g[..2] == Be(2, frameLen) && g[2] == 1 && g[3] == 0 && g[4..12] == Be(8, ctr);
      assert h == h[..2] + [h[2], h[3]] + h[4..12];
    }
  }

  lemma Halves(h: bytes, body: bytes)
    ensures (h + body)[..|h|] == h && (h + body)[|h|..] == body
  {
  }

  /** What a sender writes: twelve bytes in the clear, and behind them what the cipher
      makes of the plaintext under a nonce of direction and counter, with those twelve
      bytes as associated data. */
  lemma SentFrameByBytes(c: Cipher, s: Session, plain: bytes, cap: nat, n: bytes)
    requires s.txSeq < TWO_64 && IsNonce(n, s.txDir, s.txSeq)
    ensures var e := Encrypt(c, s, plain, cap);
            && (e.Some? <==> s.established && |plain| + 28 <= cap && |plain| + 28 <= 65535)
            && (e.Some? ==>
                  var f := e.value.frame;
                  && |f| == |plain| + 28 && IsHeader(f[..12], |f|, s.txSeq)
                  && f[12..] == c(s.key, n, f[..12], plain)
                  && e.value.session == s.(txSeq := if s.txSeq == 18446744073709551615 then 0 else s.txSeq + 1))
  {
    hide IsNonce, IsHeader, Nonce, Header;
    var e := Encrypt(c, s, plain, cap);
    if e.Some? {
      var f, h := e.value.frame, Header(|plain| + 28, s.txSeq);
      NonceByBytes(n, s.txDir, s.txSeq);
      Halves(h, c(s.key, n, h, plain));
      HeaderByBytes(h, |f|, s.txSeq);
    }
  }

  /** What a receiver takes: a frame with the right first twelve bytes, whose other bytes
      were sealed under its key, the peer's direction and the counter it expects. */
  lemma TakenFrameByBytes(t: Table, s: Session, frame: bytes, cap: nat, n: bytes)
    requires s.rxSeq < TWO_64 && IsNonce(n, s.rxDir, s.rxSeq)
    ensures var d := Decrypt(t, s, frame, cap);
            && (d.Some? <==>
                && s.established && 28 <= |frame| <= cap + 28 && IsHeader(frame[..12], |frame|, s.rxSeq)
                && Label(s.key, n, frame[..12], frame[12..]) in t)
            && (d.Some? ==>
                  && d.value.plain == t[Label(s.key, n, frame[..12], frame[12..])]
                  && d.value.session == s.(rxSeq := if s.rxSeq == 18446744073709551615 then 0 else s.rxSeq + 1))
  {
    NonceByBytes(n, s.rxDir, s.rxSeq);
    if 28 <= |frame| {
      TwoBytes(frame[..2]);
      EightBytes(frame[4..12]);
      assert frame[..12][4..12] == frame[4..12];
    }
  }
}
