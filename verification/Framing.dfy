/** Cutting a byte stream back into the frames it was made of. */
module Framing {
  import opened Bytes
  import opened Sockets
  import opened Wire

  datatype Cut = Cut(frame: bytes, rest: bytes)

  /** The frame at the head of a stream: its declared length is believed when it
      is within the limits and the stream holds that many bytes. */
  function NextFrame(s: bytes, cap: nat): (r: Option<Cut>)
    ensures r.Some? ==> s == r.value.frame + r.value.rest && HEADER_LEN + TAG_LEN <= |r.value.frame| <= cap
  {
    if |s| < 2 then None else
    var n := Rd(s[..2]);
    if n < HEADER_LEN + TAG_LEN || n > cap || n > |s| then None else Some(Cut(s[..n], s[n..]))
  }

  /** All frames of a stream, up to the first thing that is not a whole frame. */
  function Deframe(s: bytes, cap: nat): seq<bytes>
    decreases |s|
  {
    var r := NextFrame(s, cap);
    if r.None? then [] else [r.value.frame] + Deframe(r.value.rest, cap)
  }

  /** Bytes that declare their own length, within the limits of a reader. */
  ghost predicate IsFrame(f: bytes, cap: nat) {
    HEADER_LEN + TAG_LEN <= |f| <= cap && Rd(f[..2]) == |f|
  }

  ghost predicate AllFrames(fs: seq<bytes>, cap: nat) {
    forall k :: 0 <= k < |fs| ==> IsFrame(fs[k], cap)
  }

  lemma NextFrameReads(f: bytes, rest: bytes, cap: nat)
    requires IsFrame(f, cap)
    ensures NextFrame(f + rest, cap) == Some(Cut(f, rest))
  {
    assert (f + rest)[..2] == f[..2];
    assert (f + rest)[..|f|] == f && (f + rest)[|f|..] == rest;
  }

  /** Deframing inverts framing: whole frames come back exactly, and what follows
      them, say the first half of another frame, is never turned into one. */
  lemma {:induction false} DeframeInverts(fs: seq<bytes>, tail: bytes, cap: nat)
    requires AllFrames(fs, cap)
    ensures Deframe(Flatten(fs) + tail, cap) == fs + Deframe(tail, cap)
    decreases |fs|
  {
    if fs == [] {
      assert Flatten(fs) + tail == tail;
    } else {
      var rest := Flatten(fs[1..]) + tail;
      Regroup(fs[0], Flatten(fs[1..]), tail);
      assert Flatten(fs) + tail == fs[0] + rest;
      NextFrameReads(fs[0], rest, cap);
      DeframeInverts(fs[1..], tail, cap);
      assert Deframe(fs[0] + rest, cap) == [fs[0]] + Deframe(rest, cap);
      Regroup([fs[0]], fs[1..], Deframe(tail, cap));
      assert fs == [fs[0]] + fs[1..];
    }
  }

  lemma PartialFrameIsNone(f: bytes, k: nat, cap: nat)
    requires IsFrame(f, cap) && k < |f|
    ensures NextFrame(f[..k], cap) == None && Deframe(f[..k], cap) == []
  {
    if 2 <= k {
      assert f[..k][..2] == f[..2];
    }
  }

  /** What has arrived of a stream of frames yields the first of them. */
  lemma {:induction false} PartOfFrames(fs: seq<bytes>, part: bytes, cap: nat) returns (n: nat)
    requires AllFrames(fs, cap) && part <= Flatten(fs)
    ensures n <= |fs| && Deframe(part, cap) == fs[..n] && |Flatten(fs[..n])| <= |part|
    decreases |fs|
  {
    n := 0;
    if fs == [] {
    } else if |part| < |fs[0]| {
      assert part == fs[0][..|part|];
      PartialFrameIsNone(fs[0], |part|, cap);
    } else {
      var rest := part[|fs[0]|..];
      assert Flatten(fs)[|fs[0]|..] == Flatten(fs[1..]) && part == fs[0] + rest;
      NextFrameReads(fs[0], rest, cap);
      n := PartOfFrames(fs[1..], rest, cap);
      assert fs[..n + 1] == [fs[0]] + fs[1..][..n];
      assert fs[..n + 1][1..] == fs[1..][..n];
      n := n + 1;
    }
  }

  /** recv_frame of net.c: the two length bytes first, then the rest. */
  method RecvFrame(sock: Socket, out: array<byte>) returns (frameLen: int)
    modifies sock`input, sock`interrupts, out
    ensures frameLen == -1 || 0 < frameLen <= out.Length
    ensures frameLen > 0 ==> NextFrame(old(sock.input), out.Length) == Some(Cut(out[..frameLen], sock.input))
    ensures sock.reliable && frameLen == -1 ==> NextFrame(old(sock.input), out.Length) == None
  {
    var hdr := new byte[HEADER_LEN];
    var r := ReadFull(sock, hdr, 0, 2);
    if r <= 0 {
      return -1;
    }
    ghost var s := old(sock.input);
    var hi: int, lo: int := hdr[0], hdr[1];
    var declared := hi * 256 + lo;
    assert s[..2] == [hi, lo] by {
      assert hdr[0..2] == [hi, lo];
    }
    assert declared == Rd(s[..2]) by {
      assert Rd(s[..2][..1]) == Rd([]) * 256 + hi;
    }
    if declared < HEADER_LEN + TAG_LEN || declared > out.Length {
      return -1;
    }
    out[0], out[1] := hdr[0], hdr[1];
    r := ReadFull(sock, out, 2, declared - 2);
    if r <= 0 {
      return -1;
    }
    assert out[..declared] == [hi, lo] + out[2..declared];
    assert s[..declared] == s[..2] + s[2..][..declared - 2];
    assert s[declared..] == s[2..][declared - 2..];
    frameLen := declared;
  }

  /** A receiver that opens frames one after the other and stops at the first bad one. */
  function ReceiveAll(t: Table, s: Session, frames: seq<bytes>, cap: nat): seq<bytes>
    decreases |frames|
  {
    if frames == [] then [] else
    var r := Decrypt(t, s, frames[0], cap);
    if r.None? then [] else [r.value.plain] + ReceiveAll(t, r.value.session, frames[1..], cap)
  }

  /** What the sender itself seals, and its own counter, do not matter to what it
      accepts: its nonces carry the other direction byte. */
  lemma DecryptIgnoresOwn(t: Table, s: Session, slot: Label, own: bytes, k: nat, n: nat, f: bytes, cap: nat)
    requires slot.nonce == Nonce(s.txDir, k) && k < TWO_64 && s.rxSeq < TWO_64 && s.txDir != s.rxDir
    ensures Decrypt(t[slot := own], s.(txSeq := n), f, cap) ==
            var r := Decrypt(t, s, f, cap);
            if r.None? then None else Some(r.value.(session := r.value.session.(txSeq := n)))
  {
    NonceInjective(s.txDir, k, s.rxDir, s.rxSeq);
  }

  lemma {:induction false} ReceiveIgnoresOwn(
    t: Table, s: Session, slot: Label, own: bytes, k: nat, n: nat, frames: seq<bytes>, cap: nat)
    requires slot.nonce == Nonce(s.txDir, k) && k < TWO_64 && s.rxSeq < TWO_64 && s.txDir != s.rxDir
    ensures ReceiveAll(t[slot := own], s.(txSeq := n), frames, cap) == ReceiveAll(t, s, frames, cap)
    decreases |frames|
  {
    if frames != [] {
      DecryptIgnoresOwn(t, s, slot, own, k, n, frames[0], cap);
      var r := Decrypt(t, s, frames[0], cap);
      if r.Some? {
        ReceiveIgnoresOwn(t, r.value.session, slot, own, k, n, frames[1..], cap);
      }
    }
  }

  /** `frame` seals `line` under counter `ctr`, and the AEAD remembers it. */
  ghost predicate Seals(c: Cipher, key: bytes, dir: byte, max: nat, t: Table, ctr: nat, line: bytes, frame: bytes) {
    var slot := SlotAt(c, key, dir, ctr, line);
    frame == FrameOf(slot) && |line| <= max && slot in t && t[slot] == line
  }

  /** The frames seal the lines under the counters `from`, `from + 1`, ... */
  ghost predicate SealsAll(
    c: Cipher, key: bytes, dir: byte, max: nat, t: Table, from: nat, lines: seq<bytes>, frames: seq<bytes>)
  {
    && |frames| == |lines|
    && forall i :: 0 <= i < |frames| ==> Seals(c, key, dir, max, t, from + i, lines[i], frames[i])
  }

  /** What one call that seals and writes does: nothing, or it seals the line and writes
      its frame, all of it if `ok` and else a part. */
  ghost predicate Posts(
    c: Cipher, s: Session, t: Table, out: bytes, line: bytes, cap: nat, s': Session, t': Table, out': bytes, ok: bool)
  {
    var e := Encrypt(c, s, line, cap);
    if s' == s then t' == t && out' == out && !ok
    else
      && e.Some? && s' == e.value.session && t' == t[e.value.slot := line]
      && out <= out' && if ok then out' == out + e.value.frame else out' < out + e.value.frame
  }

  lemma SealedIsFrame(c: Cipher, s: Session, line: bytes, cap: nat)
    requires Encrypt(c, s, line, cap).Some? && s.txSeq < TWO_64
    ensures IsFrame(Encrypt(c, s, line, cap).value.frame, cap)
  {
    HeaderFields(HEADER_LEN + |line| + TAG_LEN, s.txSeq, Encrypt(c, s, line, cap).value.slot.body);
  }

  /** A receiver of the direction `dir` that expects counter `ctr`. */
  function ReceiverAt(key: bytes, dir: byte, own: byte, ctr: nat): Session {
    Session(key, ctr, 0, dir, own, true)
  }

  lemma FrameIsAccepted(
    c: Cipher, key: bytes, dir: byte, own: byte, max: nat, t: Table, ctr: nat, line: bytes, frame: bytes, cap: nat)
    requires HEADER_LEN + max + TAG_LEN <= MAX_FRAME && ctr < TWO_64 - 1
    requires Seals(c, key, dir, max, t, ctr, line, frame) && max <= cap
    ensures IsFrame(frame, HEADER_LEN + max + TAG_LEN)
    ensures Decrypt(t, ReceiverAt(key, dir, own, ctr), frame, cap)
            == Some(Opened(ReceiverAt(key, dir, own, ctr + 1), line))
  {
    HeaderFields(HEADER_LEN + |line| + TAG_LEN, ctr, SlotAt(c, key, dir, ctr, line).body);
  }

  lemma SealsTail(
    c: Cipher, key: bytes, dir: byte, max: nat, t: Table, from: nat, lines: seq<bytes>, frames: seq<bytes>)
    requires SealsAll(c, key, dir, max, t, from, lines, frames) && lines != []
    ensures Seals(c, key, dir, max, t, from, lines[0], frames[0])
    ensures SealsAll(c, key, dir, max, t, from + 1, lines[1..], frames[1..])
  {
    assert Seals(c, key, dir, max, t, from + 0, lines[0], frames[0]);
    forall i | 0 <= i < |frames[1..]|
      ensures Seals(c, key, dir, max, t, from + 1 + i, lines[1..][i], frames[1..][i])
    {
      assert Seals(c, key, dir, max, t, from + (i + 1), lines[i + 1], frames[i + 1]);
    }
  }

  lemma {:induction false} ReceiveInOrder(
    c: Cipher, key: bytes, dir: byte, own: byte, max: nat, t: Table, from: nat, lines: seq<bytes>, frames: seq<bytes>,
    cap: nat)
    requires SealsAll(c, key, dir, max, t, from, lines, frames) && from + |lines| < TWO_64
    requires max <= cap && HEADER_LEN + max + TAG_LEN <= MAX_FRAME
    ensures ReceiveAll(t, ReceiverAt(key, dir, own, from), frames, cap) == lines
    decreases |lines|
  {
    if lines != [] {
      SealsTail(c, key, dir, max, t, from, lines, frames);
      FrameIsAccepted(c, key, dir, own, max, t, from, lines[0], frames[0], cap);
      ReceiveInOrder(c, key, dir, own, max, t, from + 1, lines[1..], frames[1..], cap);
      assert lines == [lines[0]] + lines[1..];
    }
  }

  /** Sealing under the next counter leaves the earlier seals alone and adds one. */
  lemma SealsAllAppend(
    c: Cipher, key: bytes, dir: byte, max: nat, t: Table, from: nat, lines: seq<bytes>, frames: seq<bytes>, line: bytes)
    requires SealsAll(c, key, dir, max, t, from, lines, frames) && from + |lines| < TWO_64 && |line| <= max
    ensures var slot := SlotAt(c, key, dir, from + |lines|, line);
            && SealsAll(c, key, dir, max, t[slot := line], from, lines, frames)
            && SealsAll(c, key, dir, max, t[slot := line], from, lines + [line], frames + [FrameOf(slot)])
  {
    var slot := SlotAt(c, key, dir, from + |lines|, line);
    forall i | 0 <= i < |lines|
      ensures Seals(c, key, dir, max, t[slot := line], from + i, lines[i], frames[i])
    {
      assert Seals(c, key, dir, max, t, from + i, lines[i], frames[i]);
      NonceInjective(dir, from + i, dir, from + |lines|);
    }
  }

  lemma SealedAreFrames(c: Cipher, key: bytes, dir: byte, max: nat, t: Table, lines: seq<bytes>, frames: seq<bytes>)
    requires SealsAll(c, key, dir, max, t, 0, lines, frames) && |lines| < TWO_64
    requires HEADER_LEN + max + TAG_LEN <= MAX_FRAME
    ensures AllFrames(frames, HEADER_LEN + max + TAG_LEN)
  {
    forall k | 0 <= k < |frames|
      ensures IsFrame(frames[k], HEADER_LEN + max + TAG_LEN)
    {
      assert Seals(c, key, dir, max, t, 0 + k, lines[k], frames[k]);
      FrameIsAccepted(c, key, dir, dir, max, t, k, lines[k], frames[k], max);
    }
  }

  /** What has arrived of a stream of sealed frames is read as the first of its lines. */
  lemma PartIsRead(
    c: Cipher, key: bytes, dir: byte, own: byte, max: nat, t: Table, lines: seq<bytes>, frames: seq<bytes>,
    part: bytes, cap: nat)
    requires SealsAll(c, key, dir, max, t, 0, lines, frames) && |lines| < TWO_64 && part <= Flatten(frames)
    requires max <= cap && HEADER_LEN + max + TAG_LEN <= MAX_FRAME
    ensures ReceiveAll(t, ReceiverAt(key, dir, own, 0), Deframe(part, HEADER_LEN + max + TAG_LEN), cap) <= lines
  {
    SealedAreFrames(c, key, dir, max, t, lines, frames);
    var n := PartOfFrames(frames, part, HEADER_LEN + max + TAG_LEN);
    FirstAreRead(c, key, dir, own, max, t, lines, frames, n, cap);
  }

  lemma FirstAreRead(
    c: Cipher, key: bytes, dir: byte, own: byte, max: nat, t: Table, lines: seq<bytes>, frames: seq<bytes>,
    n: nat, cap: nat)
    requires SealsAll(c, key, dir, max, t, 0, lines, frames) && |lines| < TWO_64 && n <= |lines|
    requires max <= cap && HEADER_LEN + max + TAG_LEN <= MAX_FRAME
    ensures ReceiveAll(t, ReceiverAt(key, dir, own, 0), frames[..n], cap) == lines[..n]
  {
    forall i | 0 <= i < n
      ensures Seals(c, key, dir, max, t, 0 + i, lines[..n][i], frames[..n][i])
    {
      assert Seals(c, key, dir, max, t, 0 + i, lines[i], frames[i]);
    }
    ReceiveInOrder(c, key, dir, own, max, t, 0, lines[..n], frames[..n], cap);
  }
}
