/** The firmware's record layer, components/core/src/proto.c. */
module Proto {
  import opened AeadLibrary
  import opened Bytes
  import opened Fields
  import opened Wire

  class ProtoSession {
    var key: bytes
    var rxSeq: nat
    var txSeq: nat
    var rxDir: byte
    var txDir: byte
    var established: bool

    function Value(): Session
      reads this
    {
      Session(key, rxSeq, txSeq, rxDir, txDir, established)
    }

    ghost predicate Valid()
      reads this
    {
      rxSeq < TWO_64 && txSeq < TWO_64
    }

    constructor ()
      ensures Valid() && Value() == WIPED
    {
      key, rxSeq, txSeq, rxDir, txDir, established := Zeros(KEY_LEN), 0, 0, 0, 0, false;
    }

    method Init(key: bytes)
      modifies this
      ensures Valid() && Value() == NewSession(key, DIR_SERVER, DIR_CLIENT)
    {
      this.key, rxSeq, txSeq := key, 0, 0;
      txDir, rxDir, established := DIR_SERVER, DIR_CLIENT, true;
    }

    method Wipe()
      modifies this
      ensures Valid() && Value() == WIPED
    {
      key, rxSeq, txSeq, rxDir, txDir, established := Zeros(KEY_LEN), 0, 0, 0, 0, false;
    }

    method FrameEncrypt(aead: Aead, plain: bytes, out: array<byte>) returns (ok: bool, outLen: nat)
      requires Valid() && Lengths(aead.table)
      modifies this`txSeq, out, aead
      ensures Valid() && Lengths(aead.table)
      ensures !ok ==> Value() == old(Value()) && aead.table == old(aead.table)
      ensures var e := Encrypt(aead.cipher, old(Value()), plain, out.Length);
              ok ==>
                && e.Some? && Value() == e.value.session
                && outLen == |e.value.frame| <= out.Length && out[..outLen] == e.value.frame
                && aead.table == old(aead.table)[e.value.slot := plain]
      ensures aead.reliable && Encrypt(aead.cipher, old(Value()), plain, out.Length).Some? ==> ok
    {
      ok, outLen := false, 0;
      if !established || |plain| > 0xFFFF {
        return;
      }
      var frameLen := HEADER_LEN + |plain| + TAG_LEN;
      if frameLen > out.Length || frameLen > MAX_FRAME {
        return;
      }
      PutHeader(out, frameLen, txSeq);
      var nonce := BuildNonce(txDir, txSeq);
      var body := aead.Seal(key, nonce[..], out[..12], plain);
      if body.None? {
        return;
      }
      ghost var header := out[..12];
      CopyInto(out, HEADER_LEN, body.value);
      assert out[..12] == header && out[..frameLen] == header + body.value;
      txSeq := Next64(txSeq);
      ok, outLen := true, frameLen;
    }

    method FrameDecrypt(aead: Aead, frame: array<byte>, frameLen: nat, out: array<byte>, outCap: nat)
      returns (ok: bool, plainLen: nat)
      requires Valid() && Lengths(aead.table)
      requires frameLen <= frame.Length && outCap <= out.Length && frame != out
      modifies this`rxSeq, out
      ensures Valid()
      ensures !ok ==> Value() == old(Value())
      ensures ok ==>
                && plainLen <= outCap
                && Decrypt(aead.table, old(Value()), frame[..frameLen], outCap)
                   == Some(Opened(Value(), out[..plainLen]))
      ensures aead.reliable && Decrypt(aead.table, old(Value()), frame[..frameLen], outCap).Some? ==> ok
      ensures forall i :: outCap <= i < out.Length ==> out[i] == old(out[i])
    {
      ok, plainLen := false, 0;
      if !established || frameLen < HEADER_LEN + TAG_LEN {
        return;
      }
      ghost var all, f := frame[..], frame[..frameLen];
      assert f[..2] == frame[0..2] && f[4..12] == frame[4..12];
      assert f[..12] == all[..12] && f[12..] == all[12..frameLen];
      var declared := GetBe16(frame, 0);
      if declared != frameLen || frame[2] != TYPE_DATA || frame[3] != 0 {
        return;
      }
      var ctr := GetBe64(frame, 4);
      if ctr != rxSeq {
        return;
      }
      var bodyLen := frameLen - HEADER_LEN;
      var plainSize := bodyLen - TAG_LEN;
      if plainSize > outCap {
        return;
      }
      var nonce := BuildNonce(rxDir, ctr);
      assert frame[..] == all;
      var plain := aead.Open(key, nonce[..], frame[..12], frame[12..frameLen]);
      if plain.None? || |plain.value| != plainSize {
        return;
      }
      CopyInto(out, 0, plain.value);
      assert out[..|plain.value|] == plain.value;
      rxSeq := Next64(rxSeq);
      ok, plainLen := true, |plain.value|;
    }
  }
}
