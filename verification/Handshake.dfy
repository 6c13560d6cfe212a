/** The cleartext handshake: do_handshake on both sides (components/core/src/net.c
    and tools/esp-ctl/src/esp-ctl.c). */
module Handshake {
  import opened Auth
  import opened AuthLines
  import opened Bytes
  import ClientProto
  import Hex
  import Proto
  import opened Sockets
  import opened Wire

  const MAX_ATTEMPTS := 3
  const LINE_CAP := 512
  const REPLY_CAP := 128

  /** The outputs of a random generator, by the number of the draw. */
  type Source = f: nat -> bytes | forall i :: |f(i)| == NONCE_LEN witness _ => Zeros(NONCE_LEN)

  class Rng {
    const source: Source
    var drawn: nat

    constructor (source: Source)
      ensures this.source == source && drawn == 0
    {
      this.source, drawn := source, 0;
    }

    /** auth_make_nonce. */
    method Draw() returns (nonce: bytes)
      modifies this
      ensures nonce == source(old(drawn)) && drawn == old(drawn) + 1
    {
      nonce, drawn := source(drawn), drawn + 1;
    }
  }

  /** The client nonce under which a line proves possession of the token. */
  function Proven(mac: Mac, token: bytes, snonce: bytes, line: bytes): (cnonce: Option<bytes>)
    ensures cnonce.Some? ==> |cnonce.value| == NONCE_LEN
  {
    var c := ReadAuth(CString(line));
    if token != [] && c.Some? && c.value.proof == Proof(mac, token, snonce, c.value.cnonce)
    then Some(c.value.cnonce) else None
  }

  /** Whom the server admits on a stream of lines, when the attempts from the `i`-th
      draw on are left: each line is judged against the nonce of its own attempt. */
  datatype Admission = Admission(draw: nat, cnonce: bytes, rest: bytes)

  function Admit(mac: Mac, token: bytes, source: Source, i: nat, left: nat, stream: bytes): Option<Admission>
    decreases left
  {
    if left == 0 then None else
    var line := NextLine([], stream, LINE_CAP - 1);
    if line.None? then None else
    var cnonce := Proven(mac, token, source(i), line.value.text);
    if cnonce.Some? then Some(Admission(i, cnonce.value, line.value.rest))
    else Admit(mac, token, source, i + 1, left - 1, line.value.rest)
  }

  /** The stream behind its first `k` lines. */
  function SkipLines(stream: bytes, k: nat): Option<bytes>
    decreases k
  {
    if k == 0 then Some(stream) else
    var line := NextLine([], stream, LINE_CAP - 1);
    if line.None? then None else SkipLines(line.value.rest, k - 1)
  }

  /** The line at the head of `stream` proves the token against the nonce drawn. */
  ghost predicate ProvedBy(mac: Mac, token: bytes, source: Source, stream: bytes, a: Admission) {
    var line := NextLine([], stream, LINE_CAP - 1);
    && line.Some? && line.value.rest == a.rest
    && Proven(mac, token, source(a.draw), line.value.text) == Some(a.cnonce)
  }

  /** The same behind the first `k` lines. */
  ghost predicate ProvedAt(mac: Mac, token: bytes, source: Source, stream: bytes, k: nat, a: Admission) {
    match SkipLines(stream, k)
    case None => false
    case Some(input) => ProvedBy(mac, token, source, input, a)
  }

  /** Safety of admission: whoever is admitted on attempt `k` sent, as line `k`, the
      proof for exactly the nonce drawn for that attempt; at most `left` are drawn. */
  lemma {:induction false} AdmittedHasProved(mac: Mac, token: bytes, source: Source, i: nat, left: nat, stream: bytes)
    requires Admit(mac, token, source, i, left, stream).Some?
    ensures var a := Admit(mac, token, source, i, left, stream).value;
            i <= a.draw < i + left && ProvedAt(mac, token, source, stream, a.draw - i, a)
    decreases left
  {
    var line := NextLine([], stream, LINE_CAP - 1).value;
    AdmitStep(mac, token, source, i, left, stream);
    if Proven(mac, token, source(i), line.text).None? {
      var a := Admit(mac, token, source, i + 1, left - 1, line.rest);
      assert Admit(mac, token, source, i, left, stream) == a;
      AdmittedHasProved(mac, token, source, i + 1, left - 1, line.rest);
      SkipFirst(stream, a.value.draw - (i + 1));
    } else {
      assert SkipLines(stream, 0) == Some(stream);
    }
  }

  lemma SkipFirst(stream: bytes, k: nat)
    requires NextLine([], stream, LINE_CAP - 1).Some?
    ensures SkipLines(stream, k + 1) == SkipLines(NextLine([], stream, LINE_CAP - 1).value.rest, k)
  {
  }

  /** One attempt: challenge, answer, judgement. `heard` is whether a line came. */
  method Attempt(sock: Socket, rng: Rng, crypto: Crypto, token: bytes)
    returns (heard: bool, snonce: bytes, cnonce: Option<bytes>, ghost line: Line, ghost said: bytes)
    modifies sock, rng
    ensures snonce == rng.source(old(rng.drawn)) && rng.drawn == old(rng.drawn) + 1
    ensures |snonce| == NONCE_LEN && sock.interrupts <= old(sock.interrupts)
    ensures sock.output == old(sock.output) + said && said <= Challenge(snonce) && (heard ==> said == Challenge(snonce))
    ensures heard ==>
              && NextLine([], old(sock.input), LINE_CAP - 1) == Some(line) && sock.input == line.rest
              && (cnonce.None? && crypto.reliable ==> Proven(crypto.mac, token, snonce, line.text).None?)
    ensures cnonce.Some? ==>
              && heard && token != [] && |cnonce.value| == NONCE_LEN
              && ProvedBy(crypto.mac, token, rng.source, old(sock.input),
                          Admission(old(rng.drawn), cnonce.value, sock.input))
    ensures sock.reliable && old(sock.interrupts) == 0 ==>
              (heard <==> NextLine([], old(sock.input), LINE_CAP - 1).Some?)
  {
    line := Line([], []);
    snonce := rng.Draw();
    var ok;
    ok, said := SendLine(sock, HelloLine(snonce));
    if !ok {
      return false, snonce, None, line, said;
    }
    var text := RecvLine(sock, LINE_CAP);
    if text.None? {
      return false, snonce, None, line, said;
    }
    line := Line(text.value, sock.input);
    heard := true;
    var claim := ReadAuth(CString(text.value));
    if claim.None? {
      return heard, snonce, None, line, said;
    }
    var verified := Verify(crypto, token, snonce, claim.value.cnonce, claim.value.proof);
    cnonce := if verified then Some(claim.value.cnonce) else None;
  }

  /** send_line: the text and a newline. */
  method SendLine(sock: Socket, text: bytes) returns (ok: bool, ghost sent: bytes)
    modifies sock`output, sock`interrupts
    ensures sock.output == old(sock.output) + sent && sent <= text + [LF] && sock.interrupts <= old(sock.interrupts)
    ensures if ok then sent == text + [LF] else !sock.reliable
  {
    ghost var out := sock.output;
    ok := WriteFull(sock, text);
    sent := sock.output[|out|..];
    if !ok {
      return;
    }
    ok := WriteFull(sock, [LF]);
    sent := sock.output[|out|..];
  }

  /** A challenge as it goes out. */
  function Challenge(snonce: bytes): bytes {
    HelloLine(snonce) + [LF]
  }

  /** The answer to an AUTH line that proves nothing. */
  function Refusal(): bytes {
    Ascii("ERR 3") + Ascii(" invalid auth")
  }

  function KeyFailure(): bytes {
    Ascii("ERR 9") + Ascii(" keygen failed")
  }

  /** An attempt has sent its challenge and then `answer`, or part of it. */
  ghost predicate Answers(challenge: bytes, said: bytes, answer: bytes) {
    challenge <= said <= challenge + (answer + [LF])
  }

  /** The lines that may follow a challenge. */
  datatype Answer = Answer(refusal: bytes, keyFailure: bytes, verdict: bytes)

  function Verdicts(): Answer {
    Answer(Refusal(), KeyFailure(), Verdict())
  }

  /** What an attempt may send at most. */
  ghost predicate Spoken(challenge: bytes, replies: Answer, said: bytes) {
    || said <= challenge || Answers(challenge, said, replies.refusal)
    || Answers(challenge, said, replies.keyFailure) || Answers(challenge, said, replies.verdict)
  }

  lemma {:induction false} SkipOneMore(stream: bytes, k: nat)
    requires SkipLines(stream, k).Some? && NextLine([], SkipLines(stream, k).value, LINE_CAP - 1).Some?
    ensures SkipLines(stream, k + 1) == Some(NextLine([], SkipLines(stream, k).value, LINE_CAP - 1).value.rest)
    decreases k
  {
    if k > 0 {
      SkipOneMore(NextLine([], stream, LINE_CAP - 1).value.rest, k - 1);
    }
  }

  function ServerSession(crypto: Crypto, token: bytes, source: Source, a: Admission): Session {
    NewSession(SessionKey(crypto.kdf, token, source(a.draw), a.cnonce), DIR_SERVER, DIR_CLIENT)
  }

  /** `OK session established` */
  function Verdict(): bytes {
    Ascii("OK") + (Ascii(" session") + Ascii(" established"))
  }

  /** Derives the key of a proven claim, loads it and says so. */
  method Establish(sock: Socket, crypto: Crypto, token: bytes, snonce: bytes, cnonce: bytes, sess: Proto.ProtoSession)
    returns (ok: bool, ghost sent: bytes)
    requires |snonce| == NONCE_LEN && |cnonce| == NONCE_LEN && token != []
    modifies sock`output, sock`interrupts, sess
    ensures ok ==> sess.Value() == NewSession(SessionKey(crypto.kdf, token, snonce, cnonce), DIR_SERVER, DIR_CLIENT)
    ensures !ok ==> sess.Value() == old(sess.Value())
                    || sess.Value() == NewSession(SessionKey(crypto.kdf, token, snonce, cnonce), DIR_SERVER, DIR_CLIENT)
    ensures sock.reliable && crypto.reliable ==> ok
    ensures sock.output == old(sock.output) + sent && (ok ==> sent == Verdict() + [LF])
    ensures sent <= Verdict() + [LF] || sent <= KeyFailure() + [LF]
    ensures sock.interrupts <= old(sock.interrupts)
  {
    var key := DeriveSessionKey(crypto, token, snonce, cnonce);
    if key.None? {
      ok, sent := SendLine(sock, KeyFailure());
      return false, sent;
    }
    sess.Init(key.value);
    ok, sent := SendLine(sock, Verdict());
  }

  lemma AdmitStep(mac: Mac, token: bytes, source: Source, i: nat, left: nat, stream: bytes)
    requires 0 < left
    ensures Admit(mac, token, source, i, left, stream) ==
            var line := NextLine([], stream, LINE_CAP - 1);
            if line.None? then None else
            var cnonce := Proven(mac, token, source(i), line.value.text);
            if cnonce.Some? then Some(Admission(i, cnonce.value, line.value.rest))
            else Admit(mac, token, source, i + 1, left - 1, line.value.rest)
  {
  }

  /** Admitted is a client that proved the token on the line of its own attempt. */
  ghost predicate Entitled(mac: Mac, token: bytes, source: Source, first: nat, stream: bytes, a: Admission) {
    first <= a.draw < first + MAX_ATTEMPTS && ProvedAt(mac, token, source, stream, a.draw - first, a)
  }

  lemma ProvedIsEntitled(
    mac: Mac, token: bytes, source: Source, first: nat, stream: bytes, input: bytes, a: Admission)
    requires first <= a.draw < first + MAX_ATTEMPTS && SkipLines(stream, a.draw - first) == Some(input)
    requires ProvedBy(mac, token, source, input, a)
    ensures Entitled(mac, token, source, first, stream, a)
  {
  }

  lemma SilenceIsRefused(mac: Mac, token: bytes, source: Source, draw: nat, left: nat, input: bytes)
    requires 0 < left && NextLine([], input, LINE_CAP - 1).None?
    ensures Admit(mac, token, source, draw, left, input).None?
  {
    AdmitStep(mac, token, source, draw, left, input);
  }

  lemma FailureIsSkipped(mac: Mac, token: bytes, source: Source, draw: nat, left: nat, input: bytes, line: Line)
    requires 0 < left && NextLine([], input, LINE_CAP - 1) == Some(line)
    requires Proven(mac, token, source(draw), line.text).None?
    ensures Admit(mac, token, source, draw, left, input) == Admit(mac, token, source, draw + 1, left - 1, line.rest)
  {
    AdmitStep(mac, token, source, draw, left, input);
  }

  lemma ProvedIsAdmitted(mac: Mac, token: bytes, source: Source, left: nat, input: bytes, a: Admission)
    requires ProvedBy(mac, token, source, input, a) && 0 < left
    ensures Admit(mac, token, source, a.draw, left, input) == Some(a)
  {
    AdmitStep(mac, token, source, a.draw, left, input);
  }

  /** One turn of the attempt loop, `left` attempts before its end: does it go on, or
      how did it end? */
  method Try(sock: Socket, rng: Rng, crypto: Crypto, token: bytes, sess: Proto.ProtoSession,
             ghost left: nat, ghost challenge: bytes, ghost replies: Answer)
    returns (more: bool, ok: bool, ghost a: Admission, ghost said: bytes)
    requires 0 < left && challenge == Challenge(rng.source(rng.drawn)) && replies == Verdicts()
    modifies sock, rng, sess
    ensures rng.drawn == old(rng.drawn) + 1 && sock.interrupts <= old(sock.interrupts)
    ensures sock.output == old(sock.output) + said
    ensures Spoken(challenge, replies, said) && (more ==> Answers(challenge, said, replies.refusal))
    ensures !more && ok ==> said == challenge + (replies.verdict + [LF])
    ensures more ==>
              && sess.Value() == old(sess.Value()) && NextLine([], old(sock.input), LINE_CAP - 1).Some?
              && sock.input == NextLine([], old(sock.input), LINE_CAP - 1).value.rest
    ensures more && crypto.reliable ==>
              Admit(crypto.mac, token, rng.source, old(rng.drawn), left, old(sock.input))
              == Admit(crypto.mac, token, rng.source, rng.drawn, left - 1, sock.input)
    ensures !more && (ok || sess.Value() != old(sess.Value())) ==>
              && ProvedBy(crypto.mac, token, rng.source, old(sock.input), a) && a.draw == old(rng.drawn)
              && sess.Value() == ServerSession(crypto, token, rng.source, a)
    ensures !more && ok ==> sock.input == a.rest
    ensures !more && sock.reliable && old(sock.interrupts) == 0 && crypto.reliable ==>
              Admit(crypto.mac, token, rng.source, old(rng.drawn), left, old(sock.input))
              == if ok then Some(a) else None
  {
    ghost var input, draw, out := sock.input, rng.drawn, sock.output;
    ghost var line, sent;
    a := Admission(0, [], []);
    var heard, snonce, cnonce;
    heard, snonce, cnonce, line, said := Attempt(sock, rng, crypto, token);
    if !heard {
      if NextLine([], input, LINE_CAP - 1).None? {
        SilenceIsRefused(crypto.mac, token, rng.source, draw, left, input);
      }
      return false, false, a, said;
    }
    if cnonce.None? {
      if crypto.reliable {
        FailureIsSkipped(crypto.mac, token, rng.source, draw, left, input, line);
      }
      ok, sent := SendLine(sock, Refusal());
      SaidThen(out, Challenge(snonce), sent, Refusal());
      return true, false, a, said + sent;
    }
    a := Admission(draw, cnonce.value, sock.input);
    ProvedIsAdmitted(crypto.mac, token, rng.source, left, input, a);
    ok, sent := Establish(sock, crypto, token, snonce, cnonce.value, sess);
    SaidThen(out, Challenge(snonce), sent, if sent <= Verdict() + [LF] then Verdict() else KeyFailure());
    more, said := false, said + sent;
  }

  lemma SaidThen(out: bytes, challenge: bytes, sent: bytes, answer: bytes)
    requires sent <= answer + [LF]
    ensures Answers(challenge, challenge + sent, answer)
    ensures out + challenge + sent == out + (challenge + sent)
  {
    Regroup(out, challenge, sent);
  }

  /** Failed attempts: each has sent its own challenge and then a refusal, or part of it. */
  ghost predicate Refused(challenges: seq<bytes>, replies: Answer, said: seq<bytes>)
    decreases |said|
  {
    said == [] ||
    var n := |said| - 1;
    && n < |challenges| && Answers(challenges[n], said[n], replies.refusal)
    && Refused(challenges, replies, said[..n])
  }

  /** All that a handshake has sent: failed attempts and a last one. */
  ghost predicate Transcript(challenges: seq<bytes>, replies: Answer, said: seq<bytes>) {
    said == [] ||
    var n := |said| - 1;
    && n < |challenges| && Spoken(challenges[n], replies, said[n])
    && Refused(challenges, replies, said[..n])
  }

  /** One more attempt has sent `last`. */
  lemma SaidStep(
    challenges: seq<bytes>, replies: Answer, out0: bytes, said: seq<bytes>, challenge: bytes, last: bytes, out: bytes)
    returns (said': seq<bytes>)
    requires Refused(challenges, replies, said) && |said| < |challenges| && challenges[|said|] == challenge
    requires Spoken(challenge, replies, last) && out == out0 + Flatten(said) + last
    ensures |said'| == |said| + 1 && said'[|said|] == last && out == out0 + Flatten(said')
    ensures Transcript(challenges, replies, said')
    ensures Answers(challenge, last, replies.refusal) ==> Refused(challenges, replies, said')
  {
    said' := said + [last];
    assert said'[..|said|] == said;
    FlattenAppend(said, last);
    Regroup(out0, Flatten(said), last);
  }

  /** The challenges that a handshake may send, one for each draw from `first` on. */
  function Challenges(source: Source, first: nat): (cs: seq<bytes>)
    ensures |cs| == MAX_ATTEMPTS
  {
    seq(MAX_ATTEMPTS, k requires 0 <= k => Challenge(source(first + k)))
  }

  lemma ChallengeAt(source: Source, first: nat, k: nat, draw: nat)
    requires k < MAX_ATTEMPTS && draw == first + k
    ensures Challenges(source, first)[k] == Challenge(source(draw))
  {
  }

  /** do_handshake of net.c. No more than three challenges go out, each under a new
      nonce: `said` lists what the attempts send. A key is loaded only for a client whose
      line proved the token against the nonce of that very attempt, and then it is the
      key of those two nonces. */
  method ServerHandshake(sock: Socket, rng: Rng, crypto: Crypto, token: bytes, sess: Proto.ProtoSession)
    returns (ok: bool, ghost a: Admission, ghost said: seq<bytes>)
    modifies sock, rng, sess
    ensures old(rng.drawn) <= rng.drawn <= old(rng.drawn) + MAX_ATTEMPTS
    ensures |said| == rng.drawn - old(rng.drawn)
    ensures Transcript(Challenges(rng.source, old(rng.drawn)), Verdicts(), said)
    ensures sock.output == old(sock.output) + Flatten(said)
    ensures ok ==> said != [] && said[|said| - 1] == Challenge(rng.source(a.draw)) + (Verdict() + [LF])
    ensures ok || sess.Value() != old(sess.Value()) ==>
              && Entitled(crypto.mac, token, rng.source, old(rng.drawn), old(sock.input), a) && a.draw == rng.drawn - 1
              && sess.Value() == ServerSession(crypto, token, rng.source, a)
    ensures ok ==> sock.input == a.rest
    ensures sock.reliable && old(sock.interrupts) == 0 && crypto.reliable ==>
              Admit(crypto.mac, token, rng.source, old(rng.drawn), MAX_ATTEMPTS, old(sock.input))
              == if ok then Some(a) else None
  {
    ghost var stream, first, challenges, replies :=
      sock.input, rng.drawn, Challenges(rng.source, rng.drawn), Verdicts();
    ghost var whole := Admit(crypto.mac, token, rng.source, first, MAX_ATTEMPTS, stream);
    a, said := Admission(0, [], []), [];
    assert sock.output + Flatten(said) == sock.output;
    var attempt := 0;
    while attempt < MAX_ATTEMPTS
      invariant attempt <= MAX_ATTEMPTS && rng.drawn == first + attempt && |said| == attempt
      invariant sess.Value() == old(sess.Value()) && sock.interrupts <= old(sock.interrupts)
      invariant SkipLines(stream, attempt) == Some(sock.input)
      invariant Refused(challenges, replies, said) && sock.output == old(sock.output) + Flatten(said)
      invariant crypto.reliable ==>
                  Admit(crypto.mac, token, rng.source, rng.drawn, MAX_ATTEMPTS - attempt, sock.input) == whole
    {
      ghost var input, challenge, text := sock.input, Challenge(rng.source(rng.drawn)), [];
      ChallengeAt(rng.source, first, attempt, rng.drawn);
      var more;
      more, ok, a, text := Try(sock, rng, crypto, token, sess, MAX_ATTEMPTS - attempt, challenge, replies);
      said := SaidStep(challenges, replies, old(sock.output), said, challenge, text, sock.output);
      if !more {
        if ok || sess.Value() != old(sess.Value()) {
          ProvedIsEntitled(crypto.mac, token, rng.source, first, stream, input, a);
        }
        return;
      }
      SkipOneMore(stream, attempt);
      attempt := attempt + 1;
      assert SkipLines(stream, attempt) == Some(sock.input);
    }
    RefusedIsTranscript(challenges, replies, said);
    ok := false;
  }

  lemma RefusedIsTranscript(challenges: seq<bytes>, replies: Answer, said: seq<bytes>)
    requires Refused(challenges, replies, said)
    ensures Transcript(challenges, replies, said)
  {
  }

  /** What a client takes from the server's first line: the nonce, and the stream
      behind it. */
  datatype Greeting = Greeting(snonce: bytes, rest: bytes)

  function Greet(stream: bytes): (g: Option<Greeting>)
    ensures g.Some? ==> |g.value.snonce| == NONCE_LEN
  {
    var line := NextLine([], stream, LINE_CAP - 1);
    if line.None? then None else
    var snonce := ReadHello(CString(line.value.text));
    if snonce.None? then None else Some(Greeting(snonce.value, line.value.rest))
  }

  /** The stream behind the server's verdict, if that is OK. */
  function Welcome(stream: bytes): Option<bytes> {
    var line := NextLine([], stream, REPLY_CAP - 1);
    if line.Some? && StartsWith(CString(line.value.text), Ascii("OK")) then Some(line.value.rest) else None
  }

  function ClientKey(crypto: Crypto, token: bytes, snonce: bytes, cnonce: bytes): Session {
    NewSession(SessionKey(crypto.kdf, token, snonce, cnonce), DIR_CLIENT, DIR_SERVER)
  }

  /** Reads the server's first line, for its nonce. */
  method ReceiveHello(sock: Socket) returns (snonce: Option<bytes>)
    modifies sock`input, sock`interrupts
    ensures snonce.Some? ==> Greet(old(sock.input)) == Some(Greeting(snonce.value, sock.input))
    ensures sock.reliable && old(sock.interrupts) == 0 && Greet(old(sock.input)).Some? ==> snonce.Some?
    ensures sock.interrupts <= old(sock.interrupts)
  {
    var hello := RecvLine(sock, LINE_CAP);
    snonce := if hello.None? then None else ReadHello(CString(hello.value));
  }

  /** Reads the server's verdict. */
  method ReceiveVerdict(sock: Socket) returns (ok: bool)
    modifies sock`input, sock`interrupts
    ensures ok ==> Welcome(old(sock.input)) == Some(sock.input)
    ensures sock.reliable && old(sock.interrupts) == 0 && Welcome(old(sock.input)).Some? ==> ok
  {
    var reply := RecvLine(sock, REPLY_CAP);
    ok := reply.Some? && StartsWith(CString(reply.value), Ascii("OK"));
  }

  /** do_handshake of esp-ctl.c, with the client nonce drawn beforehand; `None` is a
      random generator that failed. */
  method ClientHandshake(
    sock: Socket, crypto: Crypto, token: bytes, drawn: Option<bytes>, sess: ClientProto.ClientSession)
    returns (ok: bool, ghost snonce: bytes)
    requires drawn.Some? ==> |drawn.value| == NONCE_LEN
    modifies sock, sess
    ensures !ok ==> sess.Value() == old(sess.Value())
    ensures ok ==>
              && drawn.Some? && Greet(old(sock.input)).Some? && snonce == Greet(old(sock.input)).value.snonce
              && Welcome(Greet(old(sock.input)).value.rest) == Some(sock.input)
              && sock.output == old(sock.output)
                                + AuthLine(drawn.value, Proof(crypto.mac, token, snonce, drawn.value)) + [LF]
              && sess.Value() == ClientKey(crypto, token, snonce, drawn.value)
    ensures var g := Greet(old(sock.input));
            sock.reliable && old(sock.interrupts) == 0 && crypto.reliable && drawn.Some? && g.Some? ==>
              Welcome(g.value.rest).Some? ==> ok
  {
    snonce := [];
    var read := ReceiveHello(sock);
    if read.None? || drawn.None? {
      return false, snonce;
    }
    snonce := read.value;
    var cnonce := drawn.value;
    var proof := crypto.Hmac(token, Ascii("espshell-auth-v1") + read.value + cnonce);
    if proof.None? {
      return false, snonce;
    }
    ghost var sent;
    ok, sent := SendLine(sock, AuthLine(cnonce, proof.value));
    if !ok {
      return;
    }
    ok := ReceiveVerdict(sock);
    if !ok {
      return;
    }
    var key := crypto.Hkdf(token, read.value + cnonce, Ascii("espshell-session-v1"));
    if key.None? {
      return false, snonce;
    }
    sess.Init(key.value);
    ok := true;
  }

  /** The two sessions of a connection: one key, counters at zero, and each side
      sends under the direction byte that the other expects. */
  ghost predicate Mirrored(server: Session, client: Session) {
    && server.established && client.established && server.key == client.key
    && server.txSeq == server.rxSeq == client.txSeq == client.rxSeq == 0
    && server.txDir == client.rxDir && client.txDir == server.rxDir && server.txDir != client.txDir
  }

  ghost predicate PlainText(s: bytes) {
    forall i :: 0 <= i < |s| ==> s[i] != LF && s[i] != CR && s[i] != 0
  }

  lemma HexIsPlainText(b: bytes)
    ensures PlainText(Hex.Encode(b))
  {
    Hex.EncodeDecode(b);
    assert forall i :: 0 <= i < |Hex.Encode(b)| ==> Hex.Nibble(Hex.Encode(b)[i]) >= 0;
  }

  /** A line of plain text survives being sent, received and read as a C string. */
  lemma LineTravels(text: bytes, more: bytes, max: nat)
    requires PlainText(text) && |text| < max
    ensures NextLine([], text + [LF] + more, max) == Some(Line(text, more)) && CString(text) == text
  {
    NextLineReads([], text, more, max);
    assert [] + text == text;
    CStringOfNulFree(text);
  }

  lemma HelloTravels(snonce: bytes, more: bytes)
    requires |snonce| == NONCE_LEN
    ensures Greet(HelloLine(snonce) + [LF] + more) == Some(Greeting(snonce, more))
  {
    HexIsPlainText(snonce);
    assert PlainText(Ascii("espshell/1")) && PlainText(Ascii(" HELLO ")) && PlainText(Ascii("nonce="));
    LineTravels(HelloLine(snonce), more, LINE_CAP - 1);
    HelloRoundTrip(snonce);
  }

  /** A piece of one line that C reads whole. */
  ghost predicate LineText(s: bytes) {
    LF !in s && NulFree(s)
  }

  lemma HelloWithIsText(pre: bytes, snonce: bytes, more: bytes)
    requires LineText(pre) && LineText(more)
    ensures LineText(HelloWith(pre, snonce, more))
  {
    HexIsPlainText(snonce);
    assert PlainText(Ascii("espshell/1")) && PlainText(Ascii(" HELLO ")) && PlainText(Ascii("nonce="));
    assert LineText(HelloHead()) && LineText(Hex.Encode(snonce) + more);
    assert LineText(NonceKey() + (Hex.Encode(snonce) + more));
  }

  /** Only behind the nonce can a HELLO line end in CR. */
  lemma HelloLosesCr(pre: bytes, snonce: bytes, more: bytes)
    requires |snonce| == NONCE_LEN
    ensures StripCr(HelloWith(pre, snonce, more)) == HelloWith(pre, snonce, StripCr(more))
  {
    HexIsPlainText(snonce);
    Hex.EncodeDecode(snonce);
    var line, hex := HelloWith(pre, snonce, more), Hex.Encode(snonce);
    if more == [] {
      assert line[|line| - 1] == hex[|hex| - 1];
    } else {
      assert line[|line| - 1] == more[|more| - 1];
      if more[|more| - 1] == CR {
        assert line[..|line| - 1] == HelloWith(pre, snonce, more[..|more| - 1]);
      }
    }
  }

  /** When the client accepts a HELLO line that holds the nonce: exactly when nothing but
      one CR follows it, the text in front does not hold `nonce=` too, and the line fits
      the buffer. docs/protocol.md promises more, namely that clients ignore keys they do
      not know. */
  lemma HelloIsGreeted(pre: bytes, snonce: bytes, more: bytes, rest: bytes)
    requires |snonce| == NONCE_LEN && LineText(pre) && LineText(more)
    ensures var line := HelloWith(pre, snonce, more);
            Greet(line + [LF] + rest) == Some(Greeting(snonce, rest))
            <==> (more == [] || more == [CR]) && !Contains(pre, NonceKey()) && |line| < LINE_CAP - 1
    ensures Greet(HelloWith(pre, snonce, more) + [LF] + rest) in {Some(Greeting(snonce, rest)), None}
  {
    var line, text := HelloWith(pre, snonce, more), HelloWith(pre, snonce, StripCr(more));
    HelloWithIsText(pre, snonce, more);
    if |line| < LINE_CAP - 1 {
      NextLineReads([], line, rest, LINE_CAP - 1);
      assert [] + line == line;
      HelloLosesCr(pre, snonce, more);
      CStringOfNulFree(text);
      HelloIsRead(pre, snonce, StripCr(more));
    } else {
      LongLineIsRefused([], line, rest, LINE_CAP - 1);
    }
  }

  /** A key that no client knows yet, of 500 bytes: protocol.md allows the line, and the
      client refuses it, because its buffer is too short. */
  lemma LongHelloIsRefused(snonce: bytes, rest: bytes)
    requires |snonce| == NONCE_LEN
    ensures Greet(HelloWith(seq(500, _ => 120), snonce, []) + [LF] + rest) == None
  {
    HelloIsGreeted(seq(500, _ => 120), snonce, [], rest);
  }

  lemma JoinOfThree(a: bytes, b: bytes, c: bytes)
    ensures Join([a, b, c]) == a + [SPACE] + (b + [SPACE] + c)
  {
    assert [a] + [b, c] == [a, b, c] && [b] + [c] == [b, c];
    JoinSplit(a, [b, c]);
    JoinSplit(b, [c]);
  }

  lemma AuthTravels(cnonce: bytes, proof: bytes, more: bytes)
    requires |cnonce| == NONCE_LEN && |proof| == MAC_LEN
    ensures var line := AuthLine(cnonce, proof);
            NextLine([], line + [LF] + more, LINE_CAP - 1) == Some(Line(line, more)) && CString(line) == line
  {
    HexIsPlainText(cnonce);
    HexIsPlainText(proof);
    assert PlainText(Ascii("AUTH")) && PlainText(Ascii("cnonce=")) && PlainText(Ascii("hmac="));
    JoinOfThree(Ascii("AUTH"), NonceField(cnonce), ProofField(proof));
    LineTravels(AuthLine(cnonce, proof), more, LINE_CAP - 1);
  }

  lemma VerdictTravels(more: bytes)
    ensures Welcome(Verdict() + [LF] + more) == Some(more)
  {
    assert PlainText(Ascii("OK")) && PlainText(Ascii(" session")) && PlainText(Ascii(" established"));
    LineTravels(Verdict(), more, REPLY_CAP - 1);
    assert Verdict()[..2] == Ascii("OK");
  }

  /** Agreement, for all nonces and any non-empty common token: the client takes the
      server's nonce from its HELLO, the server takes the client's AUTH line for a
      proof, the client takes the verdict, and both hold mirrored sessions. */
  lemma HandshakeAgreement(
    crypto: Crypto, token: bytes, source: Source, i: nat, cnonce: bytes, left: nat, toServer: bytes, toClient: bytes)
    requires token != [] && |cnonce| == NONCE_LEN && 0 < left
    ensures Greet(HelloLine(source(i)) + [LF] + toClient) == Some(Greeting(source(i), toClient))
    ensures var line := AuthLine(cnonce, Proof(crypto.mac, token, source(i), cnonce));
            Admit(crypto.mac, token, source, i, left, line + [LF] + toServer) == Some(Admission(i, cnonce, toServer))
    ensures Welcome(Verdict() + [LF] + toClient) == Some(toClient)
    ensures Mirrored(ServerSession(crypto, token, source, Admission(i, cnonce, toServer)),
                     ClientKey(crypto, token, source(i), cnonce))
  {
    var proof := Proof(crypto.mac, token, source(i), cnonce);
    HelloTravels(source(i), toClient);
    AuthTravels(cnonce, proof, toServer);
    AuthRoundTrip(cnonce, proof);
    AdmitStep(crypto.mac, token, source, i, left, AuthLine(cnonce, proof) + [LF] + toServer);
    VerdictTravels(toClient);
  }
}
