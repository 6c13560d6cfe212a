/** The two cleartext lines of the handshake, as they are printed and as they are
    read: components/core/src/net.c and tools/esp-ctl/src/esp-ctl.c. */
module AuthLines {
  import opened Auth
  import opened Bytes
  import Hex

  function HelloLine(snonce: bytes): bytes {
    Ascii("espshell/1") + Ascii(" HELLO ") + (Ascii("nonce=") + Hex.Encode(snonce))
  }

  function NonceField(cnonce: bytes): bytes {
    Ascii("cnonce=") + Hex.Encode(cnonce)
  }

  function ProofField(proof: bytes): bytes {
    Ascii("hmac=") + Hex.Encode(proof)
  }

  function AuthLine(cnonce: bytes, proof: bytes): bytes {
    Join([Ascii("AUTH"), NonceField(cnonce), ProofField(proof)])
  }

  /** What a text shows behind the first occurrence of a needle. */
  function Behind(s: bytes, needle: bytes): Option<bytes> {
    if StartsWith(s, needle) then Some(s[|needle|..])
    else if s == [] then None
    else Behind(s[1..], needle)
  }

  /** The bytes that a hex text of exactly `n` bytes stands for. */
  function Exactly(s: bytes, n: nat): (b: Option<bytes>)
    ensures b.Some? ==> |b.value| == n
  {
    if Hex.IsHex(s) && |s| == 2 * n then Some(Hex.Decode(s)) else None
  }

  /** The nonce a client takes from a HELLO line. Whatever follows `nonce=` must be
      the hex text alone. */
  function ReadHello(line: bytes): (snonce: Option<bytes>)
    ensures snonce.Some? ==> |snonce.value| == NONCE_LEN
  {
    if !StartsWith(line, Ascii("espshell/1") + Ascii(" HELLO ")) then None else
    var hex := Behind(line, Ascii("nonce="));
    if hex.None? then None else Exactly(hex.value, NONCE_LEN)
  }

  /** The end of the field at `p`, and the start of the next one. */
  function FieldEnd(s: bytes, p: nat): (q: nat)
    requires p <= |s|
    ensures p <= q <= |s| && (p < |s| && s[p] != SPACE ==> p < q)
    decreases |s| - p
  {
    if p < |s| && s[p] != SPACE then FieldEnd(s, p + 1) else p
  }

  function FieldStart(s: bytes, p: nat): (q: nat)
    requires p <= |s|
    ensures p <= q <= |s| && (q < |s| ==> s[q] != SPACE)
    decreases |s| - p
  {
    if p < |s| && s[p] == SPACE then FieldStart(s, p + 1) else p
  }

  /** The fields `strtok` finds between spaces, from `p` on. */
  function Fields(s: bytes, p: nat): seq<bytes>
    requires p <= |s|
    decreases |s| - p
  {
    var q := FieldStart(s, p);
    if q == |s| then [] else [s[q..FieldEnd(s, q)]] + Fields(s, FieldEnd(s, q))
  }

  datatype Claim = Claim(cnonce: bytes, proof: bytes)

  /** The claim that the fields make, `c` and `h` being the values met before: unknown
      fields are ignored and the last of several counts. */
  function Gather(fields: seq<bytes>, c: Option<bytes>, h: Option<bytes>): (r: Option<Claim>)
    ensures r.Some? ==> |r.value.cnonce| == NONCE_LEN && |r.value.proof| == MAC_LEN
    decreases |fields|
  {
    if fields != [] then
      if StartsWith(fields[0], Ascii("cnonce=")) then Gather(fields[1..], Some(fields[0][7..]), h)
      else if StartsWith(fields[0], Ascii("hmac=")) then Gather(fields[1..], c, Some(fields[0][5..]))
      else Gather(fields[1..], c, h)
    else if c.None? || h.None? then
      None
    else
      var cnonce, proof := Exactly(c.value, NONCE_LEN), Exactly(h.value, MAC_LEN);
      if cnonce.None? || proof.None? then None else Some(Claim(cnonce.value, proof.value))
  }

  /** The claim a server reads from an AUTH line. */
  function ReadAuth(line: bytes): (c: Option<Claim>)
    ensures c.Some? ==> |c.value.cnonce| == NONCE_LEN && |c.value.proof| == MAC_LEN
  {
    var fields := Fields(line, 0);
    if fields == [] || fields[0] != Ascii("AUTH") then None else Gather(fields[1..], None, None)
  }

  lemma ExactlyEncoded(b: bytes)
    ensures Exactly(Hex.Encode(b), |b|) == Some(b)
  {
    Hex.EncodeDecode(b);
  }

  /** `nonce=` */
  function NonceKey(): (k: bytes)
    ensures |k| == 6 && k[0] == 110 && k[1] == 111 && k[2] == 110 && k[3] == 99 && k[4] == 101 && k[5] == 61
  {
    Ascii("nonce=")
  }

  /** An occurrence of the key does not straddle its end. */
  lemma KeyStartsHere(pre: bytes, rest: bytes)
    requires pre != []
    ensures StartsWith(pre + (NonceKey() + rest), NonceKey()) <==> StartsWith(pre, NonceKey())
  {
    var k, s := NonceKey(), pre + (NonceKey() + rest);
    if |pre| >= 6 {
      assert s[..6] == pre[..6];
    } else {
      assert s[..6][|pre|] == k[0];
      if |pre| == 2 {
        assert s[..6][3] == k[1];
      }
    }
  }

  lemma {:induction false} BehindKey(pre: bytes, rest: bytes) returns (skipped: bytes)
    ensures var r := Behind(pre + (NonceKey() + rest), NonceKey());
            if Contains(pre, NonceKey()) then r == Some(skipped + (NonceKey() + rest)) else r == Some(rest)
    decreases |pre|
  {
    var s := pre + (NonceKey() + rest);
    skipped := [];
    if pre == [] {
      assert s == NonceKey() + rest;
    } else {
      KeyStartsHere(pre, rest);
      assert s[1..] == pre[1..] + (NonceKey() + rest);
      if StartsWith(pre, NonceKey()) {
        skipped := pre[6..];
        assert s[6..] == skipped + (NonceKey() + rest);
      } else {
        skipped := BehindKey(pre[1..], rest);
      }
    }
  }

  lemma {:induction false} ContainsBehind(head: bytes, s: bytes)
    requires forall i :: 0 <= i < |head| ==> head[i] != 110
    ensures Contains(head + s, NonceKey()) <==> Contains(s, NonceKey())
    decreases |head|
  {
    if head == [] {
      assert head + s == s;
    } else {
      assert (head + s)[0] == head[0] && (head + s)[1..] == head[1..] + s;
      ContainsBehind(head[1..], s);
    }
  }

  /** `espshell/1 HELLO ` */
  function HelloHead(): (h: bytes)
    ensures forall i :: 0 <= i < |h| ==> h[i] != 110
  {
    Ascii("espshell/1") + Ascii(" HELLO ")
  }

  /** A HELLO line with text before and behind the nonce. */
  function HelloWith(pre: bytes, snonce: bytes, more: bytes): bytes {
    HelloHead() + (pre + (NonceKey() + (Hex.Encode(snonce) + more)))
  }

  lemma KeyIsNoHex(skipped: bytes, rest: bytes)
    ensures Exactly(skipped + (NonceKey() + rest), NONCE_LEN).None?
  {
    var s := skipped + (NonceKey() + rest);
    assert s[|skipped|] == NonceKey()[0] && Hex.Nibble(s[|skipped|]) == -1;
  }

  lemma ExactlyWithMore(b: bytes, more: bytes)
    ensures Exactly(Hex.Encode(b) + more, |b|) == if more == [] then Some(b) else None
  {
    ExactlyEncoded(b);
    assert Hex.Encode(b) + [] == Hex.Encode(b);
  }

  /** When a HELLO text yields the nonce: exactly when nothing follows it and the text in
      front does not hold `nonce=` too. */
  lemma HelloIsRead(pre: bytes, snonce: bytes, more: bytes)
    requires |snonce| == NONCE_LEN
    ensures ReadHello(HelloWith(pre, snonce, more)) == Some(snonce) <==> more == [] && !Contains(pre, NonceKey())
    ensures ReadHello(HelloWith(pre, snonce, more)) in {Some(snonce), None}
  {
    var rest := Hex.Encode(snonce) + more;
    var line := HelloWith(pre, snonce, more);
    Regroup(HelloHead(), pre, NonceKey() + rest);
    assert line[..|HelloHead()|] == HelloHead();
    ContainsBehind(HelloHead(), pre);
    var skipped := BehindKey(HelloHead() + pre, rest);
    KeyIsNoHex(skipped, rest);
    ExactlyWithMore(snonce, more);
  }

  /** Keys that no client knows yet, in front of the nonce and behind it: a line that
      protocol.md allows and the client refuses. */
  lemma UnknownKeysAreRefused(snonce: bytes)
    requires |snonce| == NONCE_LEN
    ensures ReadHello(HelloWith([], snonce, Ascii(" v=2"))) == None
    ensures ReadHello(HelloWith([112] + NonceKey() + [49, 32], snonce, [])) == None
  {
    var pre := [112] + NonceKey() + [49, 32];
    assert pre[1..][..6] == NonceKey();
    assert StartsWith(pre[1..], NonceKey());
    HelloIsRead([], snonce, Ascii(" v=2"));
    HelloIsRead(pre, snonce, []);
  }

  /** The client reads back the nonce of the line the server prints. */
  lemma HelloRoundTrip(snonce: bytes)
    requires |snonce| == NONCE_LEN
    ensures ReadHello(HelloLine(snonce)) == Some(snonce)
  {
    HelloIsRead([], snonce, []);
    assert Hex.Encode(snonce) + [] == Hex.Encode(snonce);
    assert [] + (NonceKey() + Hex.Encode(snonce)) == NonceKey() + Hex.Encode(snonce);
  }

  ghost predicate Spaceless(s: bytes) {
    s != [] && forall i :: 0 <= i < |s| ==> s[i] != SPACE
  }

  lemma {:induction false} FieldEndAt(s: bytes, p: nat, part: bytes)
    requires Occurs(s, p, part) && forall i :: 0 <= i < |part| ==> part[i] != SPACE
    requires p + |part| < |s| ==> s[p + |part|] == SPACE
    ensures FieldEnd(s, p) == p + |part|
    decreases |part|
  {
    if part != [] {
      OccursAt(s, p, part, 0);
      assert forall i :: 0 <= i < |part[1..]| ==> part[1..][i] == part[i + 1];
      FieldEndAt(s, p + 1, part[1..]);
    }
  }

  lemma FieldsSkip(s: bytes, p: nat)
    requires p < |s| && s[p] == SPACE
    ensures Fields(s, p) == Fields(s, p + 1)
  {
  }

  lemma FieldHead(s: bytes, p: nat, part: bytes)
    requires Occurs(s, p, part) && Spaceless(part) && (p + |part| < |s| ==> s[p + |part|] == SPACE)
    ensures Fields(s, p) == [part] + Fields(s, p + |part|)
  {
    OccursAt(s, p, part, 0);
    FieldEndAt(s, p, part);
    assert s[p..p + |part|] == part;
  }

  lemma {:induction false} FieldsOfJoin(s: bytes, p: nat, parts: seq<bytes>)
    requires EndsWithJoin(s, p, parts) && forall k :: 0 <= k < |parts| ==> Spaceless(parts[k])
    ensures Fields(s, p) == parts
    decreases |parts|
  {
    if |parts| == 1 {
      FieldHead(s, p, parts[0]);
    } else if |parts| > 1 {
      var part, rest := parts[0], parts[1..];
      JoinTail(s, p, parts);
      FieldHead(s, p, part);
      FieldsSkip(s, p + |part|);
      assert forall k :: 0 <= k < |rest| ==> rest[k] == parts[k + 1];
      FieldsOfJoin(s, p + |part| + 1, rest);
      assert parts == [part] + rest;
    }
  }

  lemma HexFieldIsSpaceless(key: bytes, b: bytes)
    requires Spaceless(key)
    ensures Spaceless(key + Hex.Encode(b))
  {
    Hex.EncodeDecode(b);
    assert forall i :: 0 <= i < |Hex.Encode(b)| ==> Hex.Nibble(Hex.Encode(b)[i]) >= 0;
  }

  lemma GatherTwo(cnonce: bytes, proof: bytes)
    requires |cnonce| == NONCE_LEN && |proof| == MAC_LEN
    ensures Gather([NonceField(cnonce), ProofField(proof)], None, None) == Some(Claim(cnonce, proof))
  {
    var f, g := NonceField(cnonce), ProofField(proof);
    var none: seq<bytes> := [];
    assert [f, g][1..] == [g] && [g][1..] == none;
    assert f[0] == Ascii("cnonce=")[0] == 99 && g[0] == Ascii("hmac=")[0] == 104;
    assert f[7..] == Hex.Encode(cnonce) && g[5..] == Hex.Encode(proof);
    ExactlyEncoded(cnonce);
    ExactlyEncoded(proof);
    var c, h := Some(Hex.Encode(cnonce)), Some(Hex.Encode(proof));
    assert Gather(none, c, h) == Some(Claim(cnonce, proof));
    assert Gather([g], c, None) == Gather(none, c, h);
  }

  /** The server reads back the claim of the line the client prints. */
  lemma AuthRoundTrip(cnonce: bytes, proof: bytes)
    requires |cnonce| == NONCE_LEN && |proof| == MAC_LEN
    ensures ReadAuth(AuthLine(cnonce, proof)) == Some(Claim(cnonce, proof))
  {
    var parts := [Ascii("AUTH"), NonceField(cnonce), ProofField(proof)];
    assert Spaceless(Ascii("AUTH")) && Spaceless(Ascii("cnonce=")) && Spaceless(Ascii("hmac="));
    HexFieldIsSpaceless(Ascii("cnonce="), cnonce);
    HexFieldIsSpaceless(Ascii("hmac="), proof);
    FieldsOfJoin(AuthLine(cnonce, proof), 0, parts);
    assert parts[1..] == [NonceField(cnonce), ProofField(proof)];
    GatherTwo(cnonce, proof);
  }
}
