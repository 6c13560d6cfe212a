/** The record format shared by both ends of espshell/1: big-endian fields, the
    frame header, the nonce, and the session state that seals and opens frames. */
module Wire {
  import opened Bytes

  const HEADER_LEN := 12
  const TAG_LEN := 16
  const KEY_LEN := 32
  const MAX_FRAME := 0xFFFF
  const TYPE_DATA: byte := 1
  const DIR_SERVER: byte := 0
  const DIR_CLIENT: byte := 1

  /** The low `n` bytes of `v`, most significant first. */
  function Be(n: nat, v: nat): (b: bytes)
    ensures |b| == n
  {
    if n == 0 then [] else Be(n - 1, v / 256) + [v % 256]
  }

  /** The number a big-endian byte string stands for. */
  function Rd(b: bytes): nat {
    if b == [] then 0 else Rd(b[..|b| - 1]) * 256 + b[|b| - 1]
  }

  function Pow256(n: nat): (p: nat)
    ensures 0 < p
  {
    if n == 0 then 1 else 256 * Pow256(n - 1)
  }

  lemma FieldWidths()
    ensures Pow256(2) == 0x1_0000 && Pow256(8) == TWO_64
  {
    assert Pow256(4) == 0x1_0000_0000;
  }

  lemma {:induction false} RdBe(n: nat, v: nat)
    requires v < Pow256(n)
    ensures Rd(Be(n, v)) == v
  {
    if n > 0 {
      RdBe(n - 1, v / 256);
      var b := Be(n, v);
      assert b[..|b| - 1] == Be(n - 1, v / 256);
    }
  }

  lemma {:induction false} BeRd(b: bytes)
    ensures Rd(b) < Pow256(|b|) && Be(|b|, Rd(b)) == b
  {
    if b != [] {
      BeRd(b[..|b| - 1]);
      assert b == b[..|b| - 1] + [b[|b| - 1]];
    }
  }

  /** `be64`/`rd64` undo each other on every 64-bit value and every 8 bytes. */
  lemma Be64RoundTrip(v: nat, b: bytes)
    requires v < TWO_64 && |b| == 8
    ensures Rd(Be(8, v)) == v && Rd(b) < TWO_64 && Be(8, Rd(b)) == b
  {
    FieldWidths();
    RdBe(8, v);
    BeRd(b);
  }

  lemma Be16RoundTrip(v: nat)
    requires v <= MAX_FRAME
    ensures Rd(Be(2, v)) == v
  {
    FieldWidths();
    RdBe(2, v);
  }

  function Nonce(dir: byte, ctr: nat): (n: bytes)
    ensures |n| == 12
  {
    [dir] + Be(8, ctr) + [0, 0, 0]
  }

  function Header(frameLen: nat, ctr: nat): (h: bytes)
    ensures |h| == HEADER_LEN
  {
    Be(2, frameLen) + [TYPE_DATA, 0] + Be(8, ctr)
  }

  /** Two frames share a nonce exactly when they share direction and counter. */
  lemma NonceInjective(d: byte, i: nat, e: byte, j: nat)
    requires i < TWO_64 && j < TWO_64
    ensures Nonce(d, i) == Nonce(e, j) <==> d == e && i == j
  {
    if Nonce(d, i) == Nonce(e, j) {
      assert Nonce(d, i)[0] == d && Nonce(e, j)[0] == e;
      assert Nonce(d, i)[1..9] == Be(8, i) && Nonce(e, j)[1..9] == Be(8, j);
      FieldWidths();
      RdBe(8, i);
      RdBe(8, j);
    }
  }

  /** What a receiver reads out of a header. */
  lemma HeaderFields(frameLen: nat, ctr: nat, rest: bytes)
    requires frameLen <= MAX_FRAME && ctr < TWO_64
    ensures var f := Header(frameLen, ctr) + rest;
            && Rd(f[..2]) == frameLen && f[2] == TYPE_DATA && f[3] == 0 && Rd(f[4..12]) == ctr
            && f[..12] == Header(frameLen, ctr) && f[12..] == rest
  {
    var f := Header(frameLen, ctr) + rest;
    assert f[..2] == Be(2, frameLen);
    assert f[4..12] == Be(8, ctr);
    Be16RoundTrip(frameLen);
    FieldWidths();
    RdBe(8, ctr);
  }

  /** The per-connection crypto state, as a value. */
  datatype Session = Session(key: bytes, rxSeq: nat, txSeq: nat, rxDir: byte, txDir: byte, established: bool)

  function NewSession(key: bytes, txDir: byte, rxDir: byte): Session {
    Session(key, 0, 0, rxDir, txDir, true)
  }

  function Zeros(n: nat): (z: bytes)
    ensures |z| == n
  {
    seq(n, _ => 0)
  }

  const WIPED := Session(Zeros(KEY_LEN), 0, 0, 0, 0, false)

  /** An AEAD as a deterministic function of key, nonce, associated data and
      plaintext. The witness is a toy instance, so the type is inhabited. */
  type Cipher = f: (bytes, bytes, bytes, bytes) -> bytes
    | forall k, n, a, p :: |f(k, n, a, p)| == |p| + TAG_LEN
    witness (k, n, a, p) => p + Zeros(TAG_LEN)

  /** What the ideal AEAD remembers of one sealing. */
  datatype Label = Label(key: bytes, nonce: bytes, aad: bytes, body: bytes)

  type Table = map<Label, bytes>

  /** What is sealed for the `ctr`-th frame of a direction, and the frame itself. */
  function SlotAt(c: Cipher, key: bytes, dir: byte, ctr: nat, plain: bytes): Label {
    var header, nonce := Header(HEADER_LEN + |plain| + TAG_LEN, ctr), Nonce(dir, ctr);
    Label(key, nonce, header, c(key, nonce, header, plain))
  }

  function FrameOf(l: Label): bytes {
    l.aad + l.body
  }

  datatype Sealed = Sealed(session: Session, frame: bytes, slot: Label)

  datatype Opened = Opened(session: Session, plain: bytes)

  function Next64(n: nat): nat {
    (n + 1) % TWO_64
  }

  /** Sealing one plaintext: the new session, the frame and what the AEAD sealed. */
  function Encrypt(c: Cipher, s: Session, plain: bytes, cap: nat): Option<Sealed> {
    var frameLen := HEADER_LEN + |plain| + TAG_LEN;
    if !s.established || frameLen > cap || frameLen > MAX_FRAME then
      None
    else
      var slot := SlotAt(c, s.key, s.txDir, s.txSeq, plain);
      Some(Sealed(s.(txSeq := Next64(s.txSeq)), FrameOf(slot), slot))
  }

  /** The checks a receiver makes before it asks the AEAD. */
  predicate WellFormed(s: Session, frame: bytes, cap: nat) {
    && s.established
    && HEADER_LEN + TAG_LEN <= |frame| <= HEADER_LEN + TAG_LEN + cap
    && Rd(frame[..2]) == |frame|
    && frame[2] == TYPE_DATA
    && frame[3] == 0
    && Rd(frame[4..12]) == s.rxSeq
  }

  function LabelOf(s: Session, frame: bytes): Label
    requires HEADER_LEN <= |frame|
  {
    Label(s.key, Nonce(s.rxDir, s.rxSeq), frame[..12], frame[12..])
  }

  /** Opening one received frame, against the AEAD's memory of what was sealed. */
  function Decrypt(t: Table, s: Session, frame: bytes, cap: nat): Option<Opened> {
    if WellFormed(s, frame, cap) && LabelOf(s, frame) in t then
      Some(Opened(s.(rxSeq := Next64(s.rxSeq)), t[LabelOf(s, frame)]))
    else
      None
  }

  /** A sealed frame is well formed for the peer that expects its counter, and
      carries the very label under which it was sealed. */
  lemma SealedIsWellFormed(c: Cipher, tx: Session, rx: Session, plain: bytes, cap: nat, rxCap: nat)
    requires Encrypt(c, tx, plain, cap).Some? && tx.txSeq < TWO_64
    requires rx.established && rx.rxSeq == tx.txSeq && rx.rxDir == tx.txDir && rx.key == tx.key
    requires |plain| <= rxCap
    ensures var e := Encrypt(c, tx, plain, cap).value;
            WellFormed(rx, e.frame, rxCap) && LabelOf(rx, e.frame) == e.slot
  {
    var e := Encrypt(c, tx, plain, cap).value;
    HeaderFields(|e.frame|, tx.txSeq, e.slot.body);
  }

  /** Round trip: a sealed frame opens to its plaintext and moves both counters on. */
  lemma SealOpenRoundTrip(c: Cipher, t: Table, tx: Session, rx: Session, plain: bytes, cap: nat, rxCap: nat)
    requires Encrypt(c, tx, plain, cap).Some? && tx.txSeq < TWO_64
    requires rx.established && rx.rxSeq == tx.txSeq && rx.rxDir == tx.txDir && rx.key == tx.key
    requires |plain| <= rxCap
    ensures var e := Encrypt(c, tx, plain, cap).value;
            Decrypt(t[e.slot := plain], rx, e.frame, rxCap)
            == Some(Opened(rx.(rxSeq := Next64(rx.rxSeq)), plain))
  {
    SealedIsWellFormed(c, tx, rx, plain, cap, rxCap);
  }
}
