/** What both sides take from the lines of the handshake, told by their bytes. */
module Claims {
  import opened Auth
  import opened AuthLines
  import opened Bytes
  import opened Handshake
  import Hex
  import Sockets

  /** `AUTH`, `cnonce=`, `hmac=` and `nonce=` */
  const AUTH: bytes := [65, 85, 84, 72]
  const CNONCE: bytes := [99, 110, 111, 110, 99, 101, 61]
  const HMAC: bytes := [104, 109, 97, 99, 61]
  const NONCE: bytes := [110, 111, 110, 99, 101, 61]

  /** `espshell/1 HELLO ` */
  const HELLO: bytes := [101, 115, 112, 115, 104, 101, 108, 108, 47, 49, 32, 72, 69, 76, 76, 79, 32]

  lemma KeysByBytes()
    ensures Ascii("AUTH") == AUTH && Ascii("cnonce=") == CNONCE && Ascii("hmac=") == HMAC
    ensures NonceKey() == NONCE && HelloHead() == HELLO
  {
    var version, greeting :=
      [101, 115, 112, 115, 104, 101, 108, 108, 47, 49], [32, 72, 69, 76, 76, 79, 32];
    assert Ascii("espshell/1") == version;
    assert Ascii(" HELLO ") == greeting;
    assert HELLO == version + greeting;
  }

  ghost predicate KeyAt(s: bytes, p: nat) {
    p + 6 <= |s| && s[p..p + 6] == NONCE
  }

  /** The first place of `nonce=` in a text. */
  ghost predicate FirstKey(s: bytes, p: nat) {
    KeyAt(s, p) && forall q :: 0 <= q < p ==> !KeyAt(s, q)
  }

  lemma KeyAtHead(s: bytes)
    ensures KeyAt(s, 0) <==> StartsWith(s, NonceKey())
  {
    KeysByBytes();
    assert |s| >= 6 ==> s[0..6] == s[..6];
  }

  lemma KeyAtTail(s: bytes, p: nat)
    requires s != []
    ensures KeyAt(s[1..], p) <==> KeyAt(s, p + 1)
  {
    assert p + 7 <= |s| ==> s[1..][p..p + 6] == s[p + 1..p + 7];
  }

  lemma FirstKeyTail(s: bytes, p: nat)
    requires s != [] && !KeyAt(s, 0)
    ensures FirstKey(s[1..], p) <==> FirstKey(s, p + 1)
  {
    hide KeyAt;
    KeyAtTail(s, p);
    if FirstKey(s[1..], p) {
      forall q | 0 <= q < p + 1
        ensures !KeyAt(s, q)
      {
        if q > 0 {
          KeyAtTail(s, q - 1);
        }
      }
    }
    if FirstKey(s, p + 1) {
      forall q | 0 <= q < p
        ensures !KeyAt(s[1..], q)
      {
        KeyAtTail(s, q);
      }
    }
  }

  lemma {:induction false} KeyIsFound(s: bytes, p: nat)
    requires FirstKey(s, p)
    ensures p + 6 <= |s| && Behind(s, NonceKey()) == Some(s[p + 6..])
    decreases p
  {
    assert p + 6 <= |s|;
    hide FirstKey, StartsWith;
    KeyAtHead(s);
    if p == 0 {
      FirstIsThere(s, 0);
    } else {
      NotBeforeFirst(s, p);
      FirstKeyTail(s, p - 1);
      KeyIsFound(s[1..], p - 1);
      assert s[1..][p + 5..] == s[p + 6..];
    }
  }

  lemma FirstIsThere(s: bytes, p: nat)
    requires FirstKey(s, p)
    ensures KeyAt(s, p)
  {
  }

  lemma NotBeforeFirst(s: bytes, p: nat)
    requires FirstKey(s, p) && p > 0
    ensures !KeyAt(s, 0)
  {
  }

  lemma {:induction false} FoundIsFirst(s: bytes) returns (p: nat)
    requires Behind(s, NonceKey()).Some?
    ensures FirstKey(s, p)
    decreases |s|
  {
    hide KeyAt, StartsWith;
    KeyAtHead(s);
    if StartsWith(s, NonceKey()) {
      p := 0;
    } else {
      p := FoundIsFirst(s[1..]);
      FirstKeyTail(s, p);
      p := p + 1;
    }
  }

  /** Behind its first `nonce=` a greeting holds the nonce in hex, and nothing else. */
  ghost predicate Greets(line: bytes, snonce: bytes, p: nat) {
    && HELLO <= line && FirstKey(line, p) && |line| == p + 70
    && Hex.IsHex(line[p + 6..]) && Hex.Decode(line[p + 6..]) == snonce
  }

  /** A client takes a line for a greeting exactly if it is one. */
  lemma GreetingByBytes(line: bytes, snonce: bytes)
    ensures ReadHello(line) == Some(snonce) <==> exists p :: Greets(line, snonce, p)
  {
    KeysByBytes();
    assert |line| >= 17 ==> (line[..17] == HELLO <==> HELLO <= line);
    if ReadHello(line) == Some(snonce) {
      var p := FoundIsFirst(line);
      KeyIsFound(line, p);
      assert Greets(line, snonce, p);
    }
    if p :| Greets(line, snonce, p) {
      KeyIsFound(line, p);
    }
  }

  ghost predicate IsGap(g: bytes) {
    forall i :: 0 <= i < |g| ==> g[i] == 32
  }

  ghost predicate IsField(w: bytes) {
    w != [] && 32 !in w
  }

  /** Fields with gaps in front, between and behind. */
  ghost predicate Fielded(fields: seq<bytes>, gaps: seq<bytes>) {
    && |gaps| == |fields| + 1
    && (forall k :: 0 <= k < |gaps| ==> IsGap(gaps[k])) && (forall k :: 0 < k < |fields| ==> gaps[k] != [])
    && forall k :: 0 <= k < |fields| ==> IsField(fields[k])
  }

  function Spread(fields: seq<bytes>, gaps: seq<bytes>): bytes
    requires |gaps| == |fields| + 1
  {
    if fields == [] then gaps[0] else gaps[0] + (fields[0] + Spread(fields[1..], gaps[1..]))
  }

  lemma {:induction false} GapIsSkipped(s: bytes, p: nat, g: bytes, rest: bytes)
    requires p <= |s| && s[p..] == g + rest && IsGap(g) && (rest == [] || rest[0] != 32)
    ensures FieldStart(s, p) == p + |g| <= |s| && s[p + |g|..] == rest
    decreases |g|
  {
    if g == [] {
      assert g + rest == rest;
      if rest != [] {
        assert s[p..][0] == s[p];
      }
    } else {
      assert s[p..][0] == s[p] == g[0] && s[p + 1..] == s[p..][1..] == g[1..] + rest;
      GapIsSkipped(s, p + 1, g[1..], rest);
    }
  }

  lemma {:induction false} FieldIsTaken(s: bytes, p: nat, w: bytes, rest: bytes)
    requires p <= |s| && s[p..] == w + rest && 32 !in w && (rest == [] || rest[0] == 32)
    ensures FieldEnd(s, p) == p + |w| <= |s| && s[p..p + |w|] == w && s[p + |w|..] == rest
    decreases |w|
  {
    if w == [] {
      assert w + rest == rest;
      if rest != [] {
        assert s[p..][0] == s[p];
      }
    } else {
      assert s[p..][0] == s[p] == w[0] && s[p + 1..] == s[p..][1..] == w[1..] + rest;
      FieldIsTaken(s, p + 1, w[1..], rest);
      assert s[p..p + |w|] == [s[p]] + s[p + 1..p + |w|];
    }
  }

  lemma FieldedTail(fields: seq<bytes>, gaps: seq<bytes>)
    requires Fielded(fields, gaps) && fields != []
    ensures Fielded(fields[1..], gaps[1..])
    ensures var rest := Spread(fields[1..], gaps[1..]); rest == [] || rest[0] == 32
  {
    assert forall k :: 0 <= k < |gaps| - 1 ==> gaps[1..][k] == gaps[k + 1];
    assert forall k :: 0 <= k < |fields| - 1 ==> fields[1..][k] == fields[k + 1];
  }

  lemma NoFieldIsFound(s: bytes, p: nat, gaps: seq<bytes>)
    requires Fielded([], gaps) && p <= |s| && s[p..] == Spread([], gaps)
    ensures Fields(s, p) == []
  {
    assert gaps[0] + [] == gaps[0];
    GapIsSkipped(s, p, gaps[0], []);
  }

  lemma OneField(s: bytes, p: nat, q: nat, w: bytes, rest: bytes)
    requires p <= |s| && FieldStart(s, p) == q && s[q..] == w + rest && IsField(w) && (rest == [] || rest[0] == 32)
    ensures q + |w| <= |s| && s[q + |w|..] == rest && Fields(s, p) == [w] + Fields(s, q + |w|)
  {
    FieldIsTaken(s, q, w, rest);
  }

  lemma GapThenField(s: bytes, p: nat, g: bytes, w: bytes, rest: bytes, tail: bytes) returns (e: nat)
    requires p <= |s| && s[p..] == g + tail && IsGap(g) && IsField(w) && (rest == [] || rest[0] == 32)
    requires tail == w + rest && tail != [] && tail[0] != 32
    ensures e <= |s| && s[e..] == rest && Fields(s, p) == [w] + Fields(s, e)
  {
    hide *;
    GapIsSkipped(s, p, g, tail);
    OneField(s, p, p + |g|, w, rest);
    e := p + |g| + |w|;
  }

  lemma FirstFieldIsFound(s: bytes, p: nat, fields: seq<bytes>, gaps: seq<bytes>) returns (e: nat)
    requires Fielded(fields, gaps) && fields != [] && p <= |s| && s[p..] == Spread(fields, gaps)
    ensures Fielded(fields[1..], gaps[1..]) && e <= |s| && s[e..] == Spread(fields[1..], gaps[1..])
    ensures Fields(s, p) == [fields[0]] + Fields(s, e)
  {
    var w, rest := fields[0], Spread(fields[1..], gaps[1..]);
    FieldedTail(fields, gaps);
    assert (w + rest)[0] == w[0];
    e := GapThenField(s, p, gaps[0], w, rest, w + rest);
  }

  lemma {:induction false} FieldsAreFound(s: bytes, p: nat, fields: seq<bytes>, gaps: seq<bytes>)
    requires Fielded(fields, gaps) && p <= |s| && s[p..] == Spread(fields, gaps)
    ensures Fields(s, p) == fields
    decreases |fields|
  {
    assert |gaps| == |fields| + 1;
    hide *;
    if fields == [] {
      NoFieldIsFound(s, p, gaps);
    } else {
      var e := FirstFieldIsFound(s, p, fields, gaps);
      FieldsAreFound(s, e, fields[1..], gaps[1..]);
    }
  }

  /** The value of the last field with a key, or what it was before. */
  function Latest(fields: seq<bytes>, key: bytes, before: Option<bytes>): Option<bytes>
  {
    if fields == [] then before else
    var n := |fields| - 1;
    if key <= fields[n] then Some(fields[n][|key|..]) else Latest(fields[..n], key, before)
  }

  lemma {:induction false} LatestFirst(fields: seq<bytes>, key: bytes, before: Option<bytes>)
    requires fields != []
    ensures Latest(fields, key, before)
            == Latest(fields[1..], key, if key <= fields[0] then Some(fields[0][|key|..]) else before)
    decreases |fields|
  {
    var n := |fields| - 1;
    if n > 0 && !(key <= fields[n]) {
      assert fields[..n][1..] == fields[1..][..n - 1];
      LatestFirst(fields[..n], key, before);
    }
  }

  lemma GatherFirst(fields: seq<bytes>, c: Option<bytes>, h: Option<bytes>)
    requires fields != []
    ensures Gather(fields, c, h) == Gather(
              fields[1..], if CNONCE <= fields[0] then Some(fields[0][7..]) else c,
              if HMAC <= fields[0] then Some(fields[0][5..]) else h)
  {
    KeysByBytes();
    var f := fields[0];
    assert |f| >= 7 ==> (f[..7] == CNONCE <==> CNONCE <= f);
    assert |f| >= 5 ==> (f[..5] == HMAC <==> HMAC <= f);
    assert CNONCE <= f ==> f[0] == CNONCE[0];
    assert HMAC <= f ==> f[0] == HMAC[0];
  }

  lemma {:induction false} LastCounts(fields: seq<bytes>, c: Option<bytes>, h: Option<bytes>)
    ensures Gather(fields, c, h) == Gather([], Latest(fields, CNONCE, c), Latest(fields, HMAC, h))
    decreases |fields|
  {
    if fields != [] {
      GatherFirst(fields, c, h);
      LatestFirst(fields, CNONCE, c);
      LatestFirst(fields, HMAC, h);
      LastCounts(fields[1..], if CNONCE <= fields[0] then Some(fields[0][7..]) else c,
                 if HMAC <= fields[0] then Some(fields[0][5..]) else h);
    }
  }

  ghost predicate IsKeyText(s: bytes) {
    |s| == 64 && Hex.IsHex(s)
  }

  /** The claim of an AUTH line: its first field is `AUTH`, and of the other fields the last
      `cnonce=` and the last `hmac=` count, each with 64 hex digits; the others do not. */
  lemma ClaimByBytes(fields: seq<bytes>, gaps: seq<bytes>)
    requires Fielded(fields, gaps)
    ensures ReadAuth(Spread(fields, gaps)) ==
            if fields == [] || fields[0] != AUTH then None else
            var c, h := Latest(fields[1..], CNONCE, None), Latest(fields[1..], HMAC, None);
            if c.Some? && h.Some? && IsKeyText(c.value) && IsKeyText(h.value)
            then Some(Claim(Hex.Decode(c.value), Hex.Decode(h.value))) else None
  {
    hide Fields, Spread, Latest, NonceKey, HelloHead, Hex.IsHex, Hex.Decode;
    KeysByBytes();
    var s := Spread(fields, gaps);
    assert s[0..] == s;
    FieldsAreFound(s, 0, fields, gaps);
    if fields != [] {
      LastCounts(fields[1..], None, None);
    }
  }

  /** The lines as both sides print them. */
  lemma LinesByBytes(snonce: bytes, cnonce: bytes, proof: bytes)
    ensures HelloLine(snonce) == HELLO + (NONCE + Hex.Encode(snonce))
    ensures AuthLine(cnonce, proof) == AUTH + [32] + ((CNONCE + Hex.Encode(cnonce)) + [32] + (HMAC + Hex.Encode(proof)))
  {
    KeysByBytes();
    JoinOfThree(Ascii("AUTH"), NonceField(cnonce), ProofField(proof));
  }

  /** `OK session established` */
  lemma VerdictByBytes()
    ensures Verdict() == [79, 75, 32, 115, 101, 115, 115, 105, 111, 110, 32,
                          101, 115, 116, 97, 98, 108, 105, 115, 104, 101, 100]
  {
  }

  /** `ERR 3 invalid auth` and `ERR 9 keygen failed` */
  lemma FailuresByBytes()
    ensures Refusal() == [69, 82, 82, 32, 51, 32, 105, 110, 118, 97, 108, 105, 100, 32, 97, 117, 116, 104]
    ensures KeyFailure() == [69, 82, 82, 32, 57, 32, 107, 101, 121, 103, 101, 110, 32, 102, 97, 105, 108, 101, 100]
  {
  }

  lemma TwoBytesDecide(text: bytes, more: bytes)
    requires PlainText(text) && 2 <= |text| < REPLY_CAP - 1
    ensures Welcome(text + [10] + more) == if text[0] == 79 && text[1] == 75 then Some(more) else None
  {
    hide PlainText, Sockets.NextLine;
    LineTravels(text, more, REPLY_CAP - 1);
    assert Ascii("OK") == [79, 75] && text[..2] == [text[0], text[1]];
  }

  /** The client goes on after the verdict, and after neither of the two failures. */
  lemma OnlySuccessIsWelcome(more: bytes)
    ensures Welcome(Verdict() + [10] + more) == Some(more)
    ensures Welcome(Refusal() + [10] + more) == None && Welcome(KeyFailure() + [10] + more) == None
  {
    hide Verdict, Refusal, KeyFailure, Welcome;
    VerdictByBytes();
    FailuresByBytes();
    TwoBytesDecide(Verdict(), more);
    TwoBytesDecide(Refusal(), more);
    TwoBytesDecide(KeyFailure(), more);
  }
}
