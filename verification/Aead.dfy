/** The ideal AEAD both ends call: a library that remembers every sealing and
    opens exactly what it remembers. Section 2.8 of RFC 8439 is behind it. */
module AeadLibrary {
  import opened Bytes
  import opened Wire

  /** Plaintexts are as long as the ciphertexts without their tags. */
  ghost predicate Lengths(t: Table) {
    forall l :: l in t ==> |t[l]| + TAG_LEN == |l.body|
  }

  class Aead {
    const cipher: Cipher
    /** Do all library calls that may succeed do so? */
    const reliable: bool
    var table: Table

    constructor (cipher: Cipher, reliable: bool)
      ensures this.cipher == cipher && this.reliable == reliable && table == map[]
    {
      this.cipher, this.reliable := cipher, reliable;
      table := map[];
    }

    method Seal(key: bytes, nonce: bytes, aad: bytes, plain: bytes) returns (body: Option<bytes>)
      requires Lengths(table)
      modifies this
      ensures Lengths(table) && (reliable ==> body.Some?)
      ensures body.None? ==> table == old(table)
      ensures body.Some? ==>
                && body.value == cipher(key, nonce, aad, plain)
                && table == old(table)[Label(key, nonce, aad, body.value) := plain]
    {
      var fault: bool := *;
      if fault && !reliable {
        return None;
      }
      var ct := cipher(key, nonce, aad, plain);
      table := table[Label(key, nonce, aad, ct) := plain];
      body := Some(ct);
    }

    method Open(key: bytes, nonce: bytes, aad: bytes, body: bytes) returns (plain: Option<bytes>)
      requires Lengths(table)
      ensures var slot := Label(key, nonce, aad, body); plain.Some? ==> slot in table && plain.value == table[slot]
      ensures plain.Some? ==> |plain.value| + TAG_LEN == |body|
      ensures reliable && Label(key, nonce, aad, body) in table ==> plain.Some?
    {
      var fault: bool := *;
      if (fault && !reliable) || Label(key, nonce, aad, body) !in table {
        return None;
      }
      plain := Some(table[Label(key, nonce, aad, body)]);
    }
  }
}
