/** The token proof and the session key: components/core/src/auth.c. HMAC (section 2
    of RFC 2104) and HKDF (section 2 of RFC 5869) are functions of their inputs. */
module Auth {
  import opened Bytes
  import opened Wire

  const NONCE_LEN := 32
  const MAC_LEN := 32

  /** The MAC of a message under a key. */
  type Mac = f: (bytes, bytes) -> bytes | forall k, m :: |f(k, m)| == MAC_LEN witness (k, m) => Zeros(MAC_LEN)

  /** The 32-byte key derived from a secret, a salt and an info text. */
  type Kdf = f: (bytes, bytes, bytes) -> bytes
    | forall k, s, i :: |f(k, s, i)| == KEY_LEN
    witness (k, s, i) => Zeros(KEY_LEN)

  /** The message of a proof, byte by byte: the label, then both nonces. */
  ghost predicate Binds(m: bytes, snonce: bytes, cnonce: bytes) {
    && |m| == 80 && m[..16] == Ascii("espshell-auth-v1")
    && m[16..48] == snonce && m[48..] == cnonce
  }

  /** The salt of a key: both nonces. */
  ghost predicate Salts(m: bytes, snonce: bytes, cnonce: bytes) {
    |m| == 64 && m[..32] == snonce && m[32..] == cnonce
  }

  /** What a client must send to prove that it holds the token: the MAC of the one
      message that binds both nonces. */
  function Proof(mac: Mac, token: bytes, snonce: bytes, cnonce: bytes): (proof: bytes)
    ensures |proof| == MAC_LEN
    ensures forall m :: Binds(m, snonce, cnonce) ==> proof == mac(token, m)
  {
    ghost var whole := Ascii("espshell-auth-v1") + snonce + cnonce;
    assert forall m :: Binds(m, snonce, cnonce) ==> m == m[..16] + m[16..48] + m[48..] == whole;
    mac(token, Ascii("espshell-auth-v1") + snonce + cnonce)
  }

  /** The key of a session, derived from the one salt of its two nonces. */
  function SessionKey(kdf: Kdf, token: bytes, snonce: bytes, cnonce: bytes): (key: bytes)
    ensures |key| == KEY_LEN
    ensures forall m :: Salts(m, snonce, cnonce) ==> key == kdf(token, m, Ascii("espshell-session-v1"))
  {
    assert forall m :: Salts(m, snonce, cnonce) ==> m == m[..32] + m[32..] == snonce + cnonce;
    kdf(token, snonce + cnonce, Ascii("espshell-session-v1"))
  }

  /** The crypto library; each call may fail unless it is reliable. */
  class Crypto {
    const mac: Mac
    const kdf: Kdf
    const reliable: bool

    constructor (mac: Mac, kdf: Kdf, reliable: bool)
      ensures this.mac == mac && this.kdf == kdf && this.reliable == reliable
    {
      this.mac, this.kdf, this.reliable := mac, kdf, reliable;
    }

    method Hmac(key: bytes, message: bytes) returns (m: Option<bytes>)
      ensures m.Some? ==> m.value == mac(key, message)
      ensures reliable ==> m.Some?
    {
      var fault: bool := *;
      m := if fault && !reliable then None else Some(mac(key, message));
    }

    method Hkdf(secret: bytes, salt: bytes, info: bytes) returns (k: Option<bytes>)
      ensures k.Some? ==> k.value == kdf(secret, salt, info)
      ensures reliable ==> k.Some?
    {
      var fault: bool := *;
      k := if fault && !reliable then None else Some(kdf(secret, salt, info));
    }
  }

  /** The low `n` bits of `a ^ b`. */
  function Xor(n: nat, a: nat, b: nat): nat {
    if n == 0 then 0 else 2 * Xor(n - 1, a / 2, b / 2) + (if a % 2 == b % 2 then 0 else 1)
  }

  /** The low `n` bits of `a | b`. */
  function Or(n: nat, a: nat, b: nat): nat {
    if n == 0 then 0 else 2 * Or(n - 1, a / 2, b / 2) + (if a % 2 == 0 && b % 2 == 0 then 0 else 1)
  }

  function Pow2(n: nat): nat {
    if n == 0 then 1 else 2 * Pow2(n - 1)
  }

  lemma {:induction false} XorIsZero(n: nat, a: nat, b: nat)
    requires a < Pow2(n) && b < Pow2(n)
    ensures Xor(n, a, b) < Pow2(n) && (Xor(n, a, b) == 0 <==> a == b)
  {
    if n > 0 {
      XorIsZero(n - 1, a / 2, b / 2);
    }
  }

  lemma {:induction false} OrIsZero(n: nat, a: nat, b: nat)
    requires a < Pow2(n) && b < Pow2(n)
    ensures Or(n, a, b) < Pow2(n) && (Or(n, a, b) == 0 <==> a == 0 && b == 0)
  {
    if n > 0 {
      OrIsZero(n - 1, a / 2, b / 2);
    }
  }

  /** The comparison that looks at every byte: no difference has been accumulated
      exactly when all bytes agree. */
  method SameBytes(expected: bytes, given: bytes) returns (same: bool)
    requires |expected| == |given|
    ensures same <==> expected == given
  {
    var diff: nat := 0;
    assert Pow2(4) == 16 && Pow2(8) == 256;
    for i := 0 to |expected|
      invariant diff < Pow2(8) && (diff == 0 <==> expected[..i] == given[..i])
    {
      XorIsZero(8, expected[i], given[i]);
      OrIsZero(8, diff, Xor(8, expected[i], given[i]));
      assert expected[..i + 1] == expected[..i] + [expected[i]] && given[..i + 1] == given[..i] + [given[i]];
      diff := Or(8, diff, Xor(8, expected[i], given[i]));
    }
    assert expected[..|expected|] == expected && given[..|given|] == given;
    same := diff == 0;
  }

  /** auth_verify. */
  method Verify(crypto: Crypto, token: bytes, snonce: bytes, cnonce: bytes, proof: bytes) returns (ok: bool)
    requires |proof| == MAC_LEN
    ensures ok ==> token != [] && proof == Proof(crypto.mac, token, snonce, cnonce)
    ensures crypto.reliable && token != [] && proof == Proof(crypto.mac, token, snonce, cnonce) ==> ok
    ensures forall m :: Binds(m, snonce, cnonce) && ok ==> proof == crypto.mac(token, m)
  {
    if |token| == 0 {
      return false;
    }
    var expected := crypto.Hmac(token, Ascii("espshell-auth-v1") + snonce + cnonce);
    if expected.None? {
      return false;
    }
    ok := SameBytes(expected.value, proof);
  }

  /** auth_derive_session_key, with the salt assembled in place. */
  method DeriveSessionKey(crypto: Crypto, token: bytes, snonce: bytes, cnonce: bytes) returns (key: Option<bytes>)
    requires |snonce| == NONCE_LEN && |cnonce| == NONCE_LEN
    ensures key.Some? ==> token != [] && key.value == SessionKey(crypto.kdf, token, snonce, cnonce)
    ensures crypto.reliable && token != [] ==> key.Some?
  {
    if |token| == 0 {
      return None;
    }
    var salt := new byte[2 * NONCE_LEN];
    for i := 0 to NONCE_LEN
      invariant salt[..i] == snonce[..i]
    {
      salt[i] := snonce[i];
    }
    for i := 0 to NONCE_LEN
      invariant salt[..NONCE_LEN] == snonce
      invariant salt[NONCE_LEN..NONCE_LEN + i] == cnonce[..i]
    {
      salt[NONCE_LEN + i] := cnonce[i];
    }
    assert salt[..] == salt[..NONCE_LEN] + salt[NONCE_LEN..2 * NONCE_LEN] == snonce + cnonce;
    key := crypto.Hkdf(token, salt[..], Ascii("espshell-session-v1"));
  }
}
