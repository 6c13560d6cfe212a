/** What a proof and a session key are bound to: no proof is good for two nonces of the
    server, and no key for two handshakes, unless HMAC or HKDF has a collision. */
module Binding {
  import opened Auth
  import opened AuthLines
  import opened Bytes
  import opened Handshake
  import opened Sockets
  import opened Wire

  /** The message of a proof. */
  lemma MessageOf(snonce: bytes, cnonce: bytes) returns (m: bytes)
    requires |snonce| == NONCE_LEN && |cnonce| == NONCE_LEN
    ensures Binds(m, snonce, cnonce)
  {
    m := Ascii("espshell-auth-v1") + snonce + cnonce;
  }

  lemma SaltOf(snonce: bytes, cnonce: bytes) returns (m: bytes)
    requires |snonce| == NONCE_LEN && |cnonce| == NONCE_LEN
    ensures Salts(m, snonce, cnonce)
  {
    m := snonce + cnonce;
  }

  /** A line that proves the token carries the MAC of a message that holds, at its place,
      the very nonce of the server. */
  lemma ProofHoldsNonce(mac: Mac, token: bytes, snonce: bytes, line: bytes) returns (m: bytes)
    requires |snonce| == NONCE_LEN && Proven(mac, token, snonce, line).Some?
    ensures var cnonce := Proven(mac, token, snonce, line).value;
            && |m| == 80 && m[..16] == Ascii("espshell-auth-v1") && m[16..48] == snonce && m[48..] == cnonce
            && ReadAuth(CString(line)) == Some(Claim(cnonce, mac(token, m)))
  {
    m := MessageOf(snonce, Proven(mac, token, snonce, line).value);
  }

  /** Replay: a line that is taken for a proof against two nonces of the server shows a
      collision of the MAC. */
  lemma ReplayNeedsCollision(mac: Mac, token: bytes, s1: bytes, s2: bytes, line: bytes) returns (m1: bytes, m2: bytes)
    requires |s1| == NONCE_LEN && |s2| == NONCE_LEN && s1 != s2
    requires Proven(mac, token, s1, line).Some? && Proven(mac, token, s2, line).Some?
    ensures |m1| == 80 && |m2| == 80 && m1[16..48] == s1 && m2[16..48] == s2
    ensures m1 != m2 && mac(token, m1) == mac(token, m2)
  {
    m1 := ProofHoldsNonce(mac, token, s1, line);
    m2 := ProofHoldsNonce(mac, token, s2, line);
  }

  lemma ProvedHoldsNonce(mac: Mac, token: bytes, source: Source, stream: bytes, k: nat, a: Admission)
    returns (m: bytes, line: Line)
    requires ProvedAt(mac, token, source, stream, k, a)
    ensures SkipLines(stream, k).Some? && NextLine([], SkipLines(stream, k).value, LINE_CAP - 1) == Some(line)
    ensures |m| == 80 && m[..16] == Ascii("espshell-auth-v1") && m[16..48] == source(a.draw) && m[48..] == a.cnonce
    ensures ReadAuth(CString(line.text)) == Some(Claim(a.cnonce, mac(token, m)))
  {
    line := NextLine([], SkipLines(stream, k).value, LINE_CAP - 1).value;
    m := ProofHoldsNonce(mac, token, source(a.draw), line.text);
  }

  /** Whoever is admitted has sent, on the line of the attempt, the MAC of a message that
      holds the nonce drawn for that attempt. */
  lemma AdmittedHoldsNonce(mac: Mac, token: bytes, source: Source, i: nat, left: nat, stream: bytes)
    returns (k: nat, m: bytes, line: Line)
    requires Admit(mac, token, source, i, left, stream).Some?
    ensures k < left && SkipLines(stream, k).Some?
    ensures NextLine([], SkipLines(stream, k).value, LINE_CAP - 1) == Some(line)
    ensures var a := Admit(mac, token, source, i, left, stream).value;
            && a.draw == i + k && |m| == 80 && m[..16] == Ascii("espshell-auth-v1")
            && m[16..48] == source(i + k) && m[48..] == a.cnonce
            && ReadAuth(CString(line.text)) == Some(Claim(a.cnonce, mac(token, m)))
  {
    hide *;
    var a := Admit(mac, token, source, i, left, stream).value;
    AdmittedHasProved(mac, token, source, i, left, stream);
    k := a.draw - i;
    m, line := ProvedHoldsNonce(mac, token, source, stream, k, a);
  }

  /** Two handshakes share a key only if HKDF has a collision or both nonces agree. */
  lemma KeysAreBound(kdf: Kdf, token: bytes, s1: bytes, c1: bytes, s2: bytes, c2: bytes) returns (m1: bytes, m2: bytes)
    requires |s1| == NONCE_LEN && |c1| == NONCE_LEN && |s2| == NONCE_LEN && |c2| == NONCE_LEN
    requires SessionKey(kdf, token, s1, c1) == SessionKey(kdf, token, s2, c2)
    ensures |m1| == 64 && m1[..32] == s1 && m1[32..] == c1 && |m2| == 64 && m2[..32] == s2 && m2[32..] == c2
    ensures var info := Ascii("espshell-session-v1");
            kdf(token, m1, info) == kdf(token, m2, info) == SessionKey(kdf, token, s1, c1)
    ensures m1 == m2 <==> s1 == s2 && c1 == c2
  {
    m1 := SaltOf(s1, c1);
    m2 := SaltOf(s2, c2);
    assert m1 == m1[..32] + m1[32..] && m2 == m2[..32] + m2[32..];
  }
}
