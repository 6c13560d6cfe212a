/** One connection on the firmware's side: send_frame, session_loop and its teardown
    (components/core/src/net.c). */
module Server {
  import opened AeadLibrary
  import opened Auth
  import opened AuthLines
  import opened Bytes
  import opened Dispatch
  import opened Events
  import opened Framing
  import opened Handshake
  import opened Ota
  import opened Proto
  import opened Sockets
  import opened Turns
  import opened Wire

  lemma PostingKeepsInput(
    c: Cipher, s: Session, t: Table, out: bytes, line: bytes, s': Session, t': Table, out': bytes, ok: bool,
    frames: seq<bytes>, cap: nat)
    requires Posts(c, s, t, out, line, BUFFER_LEN, s', t', out', ok)
    requires s.txSeq < TWO_64 && s.rxSeq < TWO_64 && s.txDir != s.rxDir
    ensures ReceiveAll(t', s', frames, cap) == ReceiveAll(t, s, frames, cap)
  {
    if s' != s {
      var slot := Encrypt(c, s, line, BUFFER_LEN).value.slot;
      ReceiveIgnoresOwn(t, s, slot, line, s.txSeq, Next64(s.txSeq), frames, cap);
    }
  }

  const NO_TURN := Turn([], View(None, None), Outcome(false, [], 0), View(None, None), [])

  /** What a handler other than those of ota.c may report: anything. */
  method AnyOutcome() returns (r: Outcome)
    ensures NulFree(r.payload)
  {
    var ok: bool, payload: bytes, code: int := *, *, *;
    r := Outcome(ok, CString(payload), code);
  }

  /** A line that starts with `EVT `. */
  ghost predicate EventLine(line: bytes) {
    4 <= |line| && line[..4] == [69, 86, 84, 32]
  }

  /** A line of another task: the log pump or an event source. */
  method AnyEvent() returns (line: bytes)
    ensures EventLine(line)
  {
    var rest: bytes := *;
    line := [69, 86, 84, 32] + rest;
  }

  /** The client was admitted on the line of its own attempt, and these are the commands
      that its frames carry under the key of that admission. */
  ghost predicate Granted(
    t: Table, crypto: Crypto, token: bytes, source: Source, first: nat, stream: bytes, a: Admission, all: seq<bytes>)
  {
    match a
    case Admission(_, _, rest) =>
      && Entitled(crypto.mac, token, source, first, stream, a)
      && all == ReceiveAll(t, ServerSession(crypto, token, source, a), Deframe(rest, FRAME_CAP), MAX_LINE)
  }

  /** What a connection looks at and changes, at one moment. */
  datatype Moment = Moment(drawn: nat, input: bytes, output: bytes, memory: Table, now: View)

  /** The parties to a connection: they do not change. */
  datatype Parties = Parties(
    cipher: Cipher, crypto: Crypto, token: bytes, source: Source, table: seq<Entry>, digest: Digest)

  /** The account of a connection, from accept to teardown: who was admitted, `all` the
      commands that the stream carries under the key of that admission, what the handshake
      said, and the report of the command loop. */
  datatype Account = Account(
    p: Parties, before: Moment, after: Moment, a: Admission, all: seq<bytes>, said: seq<bytes>, r: Report)

  /** The key of an admission. */
  function KeyOf(p: Parties, a: Admission): bytes {
    ServerSession(p.crypto, p.token, p.source, a).key
  }

  /** A line is dispatched only for a client that was admitted, and then the lines are the
      first of those its frames carry. What goes out is the transcript of the handshake
      and then, unless a write fails, the frames reported, whose non-events are the
      replies, one for each line. */
  ghost predicate Sound(x: Account) {
    match x
    case Account(p, before, after, a, all, said, r) =>
      && before.drawn <= after.drawn <= before.drawn + MAX_ATTEMPTS
      && Transcript(Challenges(p.source, before.drawn), Verdicts(), said)
      && Looped(p.cipher, p.table, p.digest, KeyOf(p, a), all, before.now, before.output + Flatten(said),
                after.now, after.output, after.memory, r)
      && (r != NOTHING_DONE ==>
            Granted(before.memory, p.crypto, p.token, p.source, before.drawn, before.input, a, all))
  }

  /** Nothing but the handshake has happened. */
  ghost predicate OnlyGreeted(p: Parties, before: Moment, after: Moment, said: seq<bytes>) {
    match before
    case Moment(drawn, _, output, _, now) =>
      && drawn <= after.drawn <= drawn + MAX_ATTEMPTS
      && Transcript(Challenges(p.source, drawn), Verdicts(), said)
      && after.output == output + Flatten(said) && after.now == now
  }

  lemma GreetedIsSound(
    p: Parties, before: Moment, after: Moment, a: Admission, all: seq<bytes>, said: seq<bytes>)
    requires OnlyGreeted(p, before, after, said)
    ensures Sound(Account(p, before, after, a, all, said, NOTHING_DONE))
  {
    NothingIsLooped(p.cipher, p.table, p.digest, KeyOf(p, a), all, after.now, after.output, after.memory);
  }

  /** The command loop adds its report to the account of the handshake. */
  lemma ServedIsSound(
    p: Parties, before: Moment, middle: Moment, after: Moment, a: Admission, all: seq<bytes>, said: seq<bytes>,
    r: Report)
    requires OnlyGreeted(p, before, middle, said) && after.drawn == middle.drawn
    requires Granted(before.memory, p.crypto, p.token, p.source, before.drawn, before.input, a, all)
    requires Looped(p.cipher, p.table, p.digest, KeyOf(p, a), all, middle.now, middle.output,
                    after.now, after.output, after.memory, r)
    ensures Sound(Account(p, before, after, a, all, said, r))
  {
  }

  class Connection {
    const sess: ProtoSession
    const aead: Aead
    const shell: Shell
    /** The static buffer of send_frame. */
    const buffer: array<byte>
    var authed: bool
    var online: bool

    constructor (sess: ProtoSession, aead: Aead, shell: Shell)
      ensures this.sess == sess && this.aead == aead && this.shell == shell
      ensures !authed && !online && fresh(buffer) && buffer.Length == BUFFER_LEN
    {
      this.sess, this.aead, this.shell := sess, aead, shell;
      authed, online := false, false;
      buffer := new byte[BUFFER_LEN](_ => 0);
    }

    /** Counters within 64 bits, a sound library, an OTA receiver in order. */
    ghost predicate Valid()
      reads this, sess, aead, shell, shell.ota, shell.ota.driver
    {
      sess.Valid() && Lengths(aead.table) && shell.ota.Valid() && buffer.Length == BUFFER_LEN
    }

    /** What the client will have had dispatched when all of `stream` is read. */
    ghost function Commands(stream: bytes): seq<bytes>
      reads this, sess, aead
    {
      ReceiveAll(aead.table, sess.Value(), Deframe(stream, FRAME_CAP), MAX_LINE)
    }

    /** send_frame: one line sealed and written, unless the session is down. */
    method SendFrame(sock: Socket, plain: bytes) returns (ok: bool)
      requires Valid()
      modifies sess`txSeq, aead, buffer, sock`output, sock`interrupts
      ensures Valid() && (ok ==> authed)
      ensures Posts(aead.cipher, old(sess.Value()), old(aead.table), old(sock.output), plain, BUFFER_LEN,
                    sess.Value(), aead.table, sock.output, ok)
      ensures sock.reliable ==> ok || sess.Value() == old(sess.Value())
      ensures authed && online && sess.established && |plain| <= MAX_RESP && aead.reliable && sock.reliable ==> ok
    {
      if |plain| > MAX_RESP {
        return false;
      }
      ok := false;
      if online && authed {
        var n;
        ok, n := sess.FrameEncrypt(aead, plain, buffer);
        if ok {
          ok := WriteFull(sock, buffer[..n]);
        }
      }
    }

    /** The session is up and its two directions differ. */
    ghost predicate Up()
      reads this, sess
    {
      authed && online && sess.established && sess.txDir != sess.rxDir
    }

    /** Receives and opens one frame. */
    method ReceiveLine(sock: Socket) returns (line: Option<bytes>)
      requires Valid() && Up()
      modifies sock`input, sock`interrupts, sess`rxSeq
      ensures Valid() && Up()
      ensures line.Some? ==> |sock.input| < |old(sock.input)| && |line.value| <= MAX_LINE
      ensures line.Some? ==> old(Commands(sock.input)) == [line.value] + Commands(sock.input)
      ensures sock.reliable && aead.reliable && line.None? ==> old(Commands(sock.input)) == []
    {
      var frame := new byte[FRAME_CAP];
      var n := RecvFrame(sock, frame);
      if n <= 0 {
        return None;
      }
      var text := new byte[MAX_LINE + 1];
      var ok, len := sess.FrameDecrypt(aead, frame, n, text, MAX_LINE);
      line := if ok then Some(text[..len]) else None;
    }

    ghost function Snap(sock: Socket): World
      reads this, sess, aead, shell, shell.ota, shell.ota.driver, sock
    {
      World(shell.table, shell.ota.driver.digest, aead.cipher, aead.table, sess.Value(), shell.ota.Now(),
            sock.input, sock.output)
    }

    /** send_frame on a session that is up: what there is still to receive stays what it
        was. */
    method Emit(sock: Socket, line: bytes) returns (ok: bool)
      requires Valid() && Up()
      modifies sess`txSeq, aead, buffer, sock`output, sock`interrupts
      ensures Valid() && Up() && Commands(sock.input) == old(Commands(sock.input))
      ensures Posts(aead.cipher, old(sess.Value()), old(aead.table), old(sock.output), line, BUFFER_LEN,
                    sess.Value(), aead.table, sock.output, ok)
      ensures sock.reliable ==> ok || sess.Value() == old(sess.Value())
      ensures sock.reliable && aead.reliable && |line| <= MAX_RESP ==> ok
    {
      ghost var s, t, out := sess.Value(), aead.table, sock.output;
      ok := SendFrame(sock, line);
      PostingKeepsInput(aead.cipher, s, t, out, line, sess.Value(), aead.table, sock.output, ok,
                        Deframe(sock.input, FRAME_CAP), MAX_LINE);
    }

    /** net_send_event, and the log pump's call of send_frame: any line that starts with
        `EVT `. */
    method SendEvent(sock: Socket, line: bytes, ghost v: World) returns (ok: bool, ghost w: World)
      requires Valid() && Up() && v == Snap(sock) && EventLine(line)
      modifies sess`txSeq, aead, buffer, sock`output, sock`interrupts
      ensures Valid() && Up() && w == Snap(sock) && EventSent(v, line, w, ok)
      ensures sock.reliable ==> ok || w.session == v.session
    {
      assert line[..4] == [line[0], line[1], line[2], line[3]];
      ok := Emit(sock, line);
      w := Snap(sock);
    }

    /** What other tasks send before the next reply: any number of lines, whose failures
        nobody looks at. */
    method OtherTasks(
      sock: Socket, ghost w0: World, ghost v: World, ghost turns: seq<Turn>, ghost log0: Log, ghost intact0: bool)
      returns (ghost w: World, ghost log: Log, ghost intact: bool)
      requires Valid() && Up() && v == Snap(sock) && Reached(w0, v, turns, log0, 0, intact0)
      modifies sess`txSeq, aead, buffer, sock`output, sock`interrupts
      ensures Valid() && Up() && w == Snap(sock) && Reached(w0, w, turns, log, 0, intact)
      ensures sock.reliable ==> intact == intact0
    {
      hide Genuine, AllGenuine, Deframe, IsEvent, NonEvents;
      w, log, intact := v, log0, intact0;
      var n: int := *;
      while n > 0
        invariant Valid() && Up() && w == Snap(sock) && Reached(w0, w, turns, log, 0, intact)
        invariant sock.reliable ==> intact == intact0
      {
        ghost var before := w;
        var line := AnyEvent();
        var ok;
        ok, w := SendEvent(sock, line, before);
        log, intact := EventKeeps(w0, before, turns, log, intact, line, w, ok);
        n := n - 1;
      }
    }

    /** Dispatches one line and sends the reply; what there is still to receive stays
        what it was. */
    method AnswerLine(sock: Socket, line: bytes) returns (ok: bool, ghost turn: Turn, ghost custom: Outcome)
      requires Valid() && Up() && |line| <= MAX_LINE
      modifies sock`output, sock`interrupts, sess`txSeq, aead, buffer, shell`lastErr, shell.ota, shell.ota.driver
      ensures Valid() && Up()
      ensures Genuine(shell.table, shell.ota.driver.digest, turn)
      ensures turn.line == line && turn.before == old(shell.ota.Now()) && turn.after == shell.ota.Now()
      ensures Truthful(shell.table, custom, turn)
      ensures Commands(sock.input) == old(Commands(sock.input))
      ensures Posts(aead.cipher, old(sess.Value()), old(aead.table), old(sock.output), turn.reply, BUFFER_LEN,
                    sess.Value(), aead.table, sock.output, ok)
      ensures sock.reliable ==> ok || sess.Value() == old(sess.Value())
      ensures sock.reliable && aead.reliable ==> ok
    {
      ghost var before := shell.ota.Now();
      var reported := AnyOutcome();
      custom := reported;
      var reply, r := HandleLine(shell, line, reported);
      turn := Turn(line, before, r, shell.ota.Now(), reply);
      TruthIsGenuine(shell.table, shell.ota.driver.digest, custom, turn);
      ok := Emit(sock, reply);
    }

    /** Receives one frame and answers the command in it. */
    method Serve(sock: Socket, ghost v: World) returns (heard: bool, ok: bool, ghost turn: Turn, ghost w: World)
      requires Valid() && Up() && v == Snap(sock)
      modifies sock, sess, aead, buffer, shell`lastErr, shell.ota, shell.ota.driver
      ensures Valid() && Up()
      ensures heard ==> w == Snap(sock) && TurnEnds(v, turn, w, ok) && |sock.input| < |old(sock.input)|
      ensures !heard ==> shell.ota.Now() == old(shell.ota.Now()) && sock.output == old(sock.output)
      ensures !heard ==> aead.table == old(aead.table) && sess.txSeq == old(sess.txSeq)
      ensures heard && sock.reliable ==> ok || w.session.txSeq == v.session.txSeq
      ensures sock.reliable && aead.reliable ==> if heard then ok else Incoming(v) == []
    {
      turn, w := NO_TURN, v;
      var line := ReceiveLine(sock);
      heard, ok := line.Some?, false;
      if heard {
        ghost var custom;
        ok, turn, custom := AnswerLine(sock, line.value);
        w := Snap(sock);
      }
    }

    /** The encrypted command loop: it receives, dispatches and answers one line after
        the other, while other tasks send events. The lines are, in order, those that
        opening the frames of the stream yields, up to the first bad one. All that is
        sealed meanwhile is logged under consecutive counters; its non-events are the
        replies, one for each line, of which the last may be missing. As long as no write
        failed, the frames logged stand behind the earlier output. */
    method CommandLoop(sock: Socket) returns (ghost r: Report)
      requires Valid() && Up()
      requires sess.txSeq == 0 && sess.txDir == DIR_SERVER
      modifies sock, sess, aead, buffer, shell`lastErr, shell.ota, shell.ota.driver
      ensures Valid()
      ensures Looped(aead.cipher, old(shell.table), shell.ota.driver.digest, old(sess.key), old(Commands(sock.input)),
                     old(shell.ota.Now()), old(sock.output), shell.ota.Now(), sock.output, aead.table, r)
      ensures sock.reliable ==> r.intact
      ensures sock.reliable && aead.reliable ==> r.missing == 0 && Lines(r.turns) == old(Commands(sock.input))
    {
      ghost var w0, w := Snap(sock), Snap(sock);
      assert Incoming(w0) == Commands(sock.input);
      ghost var turns, log, missing: nat, intact := [], Log([], []), 0, true;
      StartIsReached(w0);
      var more := true;
      while more
        invariant Valid() && (more ==> Up() && missing == 0 && w == Snap(sock))
        invariant missing <= 1 && Reached(w0, w, turns, log, missing, intact)
        invariant Ended(sock, w)
        invariant sock.reliable ==> intact
        invariant sock.reliable && aead.reliable ==> missing == 0 && (!more ==> Incoming(w) == [])
        decreases more, |sock.input|
      {
        more, w, turns, log, missing, intact := NextTurn(sock, w0, w, turns, log, intact);
      }
      assert w0.table == shell.table;
      assert w0.digest == shell.ota.driver.digest;
      assert w0.now == old(shell.ota.Now()) && w.now == shell.ota.Now();
      r := Report(turns, log, sess.txSeq, missing, intact);
      ReachedMeans(w0, w, turns, log, missing, intact);
    }

    /** The sending side and the OTA receiver are where they were in `w`. */
    ghost predicate Ended(sock: Socket, w: World)
      reads this, sess, aead, shell, shell.ota, shell.ota.driver, sock
    {
      && shell.ota.Now() == w.now && sock.output == w.output
      && aead.table == w.memory && sess.txSeq == w.session.txSeq
    }

    /** What other tasks send, and then one turn of the command loop; `more` if it goes
        on. */
    method NextTurn(
      sock: Socket, ghost w0: World, ghost v: World, ghost turns0: seq<Turn>, ghost log0: Log, ghost intact0: bool)
      returns (
        more: bool, ghost w: World, ghost turns: seq<Turn>, ghost log: Log, ghost missing: nat, ghost intact: bool)
      requires Valid() && Up() && v == Snap(sock) && Reached(w0, v, turns0, log0, 0, intact0)
      modifies sock, sess, aead, buffer, shell`lastErr, shell.ota, shell.ota.driver
      ensures Valid() && missing <= 1 && Reached(w0, w, turns, log, missing, intact) && Ended(sock, w)
      ensures more ==> Up() && missing == 0 && w == Snap(sock) && |sock.input| < |old(sock.input)|
      ensures sock.reliable ==> intact == intact0
      ensures sock.reliable && aead.reliable ==> missing == 0 && (!more ==> Incoming(w) == [])
    {
      ghost var input := sock.input;
      ghost var u, turn;
      u, log, intact := OtherTasks(sock, w0, v, turns0, log0, intact0);
      assert sock.input == input;
      var ok;
      more, ok, turn, w := Serve(sock, u);
      turns, missing := turns0, 0;
      if !more {
        w := u;
        return;
      }
      log, missing, intact := TurnKeeps(w0, u, turns0, log, intact, turn, w, ok);
      turns, more := turns0 + [turn], ok;
    }

    /** What `out:` does: nothing of the session survives it. */
    method Teardown()
      requires Valid()
      modifies this, sess, shell.ota, shell.ota.driver`open, shell.ota.driver`hash, shell.ota.driver`released
      ensures Valid() && !authed && !online && sess.Value() == WIPED
      ensures shell.ota.Now() == old(shell.ota.Now()).(upload := None)
    {
      authed := false;
      online := false;
      sess.Wipe();
      shell.ota.Abort();
    }

    ghost function At(sock: Socket, rng: Rng): Moment
      reads this, sock, rng, aead, shell, shell.ota, shell.ota.driver
    {
      Moment(rng.drawn, sock.input, sock.output, aead.table, shell.ota.Now())
    }

    ghost function With(rng: Rng, crypto: Crypto, token: bytes): Parties
      reads this, shell
    {
      Parties(aead.cipher, crypto, token, rng.source, shell.table, shell.ota.driver.digest)
    }

    /** The handshake part of session_loop: the session comes up only for a client that
        was admitted, under the key of that admission. */
    method Open(sock: Socket, rng: Rng, crypto: Crypto, token: bytes)
      returns (ok: bool, ghost a: Admission, ghost all: seq<bytes>, ghost said: seq<bytes>)
      requires Valid() && sess.Value() == WIPED
      modifies this, sock, rng, sess
      ensures Valid() && sess.txDir == DIR_SERVER
      ensures old(rng.drawn) <= rng.drawn <= old(rng.drawn) + MAX_ATTEMPTS
      ensures Transcript(Challenges(rng.source, old(rng.drawn)), Verdicts(), said)
      ensures sock.output == old(sock.output) + Flatten(said)
      ensures ok ==>
                && Up() && sess.txSeq == 0 && Commands(sock.input) == all
                && sess.key == ServerSession(crypto, token, rng.source, a).key
                && Granted(old(aead.table), crypto, token, rng.source, old(rng.drawn), old(sock.input), a, all)
      ensures sock.reliable && old(sock.interrupts) == 0 && crypto.reliable ==>
                all == AllCommands(old(aead.table), crypto, token, rng.source, old(rng.drawn), old(sock.input))
      ensures !ok ==> all == []
      ensures shell.ota.Now() == old(shell.ota.Now())
    {
      hide Deframe, ReceiveAll, Transcript, Entitled, Challenges, Verdicts;
      online, authed := true, false;
      ok, a, said := ServerHandshake(sock, rng, crypto, token, sess);
      assert Valid();
      if ok {
        authed := true;
      }
      all := if ok then Commands(sock.input) else [];
    }

    /** The handshake, and the account of it. */
    method Accept(sock: Socket, rng: Rng, crypto: Crypto, token: bytes)
      returns (ok: bool, ghost a: Admission, ghost all: seq<bytes>, ghost said: seq<bytes>)
      requires Valid() && sess.Value() == WIPED
      modifies this, sock, rng, sess
      ensures Valid() && sess.txDir == DIR_SERVER && (!ok ==> all == [])
      ensures OnlyGreeted(old(With(rng, crypto, token)), old(At(sock, rng)), At(sock, rng), said)
      ensures ok ==>
                && Up() && sess.txSeq == 0 && Commands(sock.input) == all
                && sess.key == ServerSession(crypto, token, rng.source, a).key
                && Granted(old(aead.table), crypto, token, rng.source, old(rng.drawn), old(sock.input), a, all)
      ensures sock.reliable && old(sock.interrupts) == 0 && crypto.reliable ==>
                all == AllCommands(old(aead.table), crypto, token, rng.source, old(rng.drawn), old(sock.input))
    {
      ok, a, all, said := Open(sock, rng, crypto, token);
    }

    /** The command loop, behind a handshake. */
    method AnswerAll(
      sock: Socket, rng: Rng, ghost p: Parties, ghost before: Moment, ghost a: Admission, ghost all: seq<bytes>,
      ghost said: seq<bytes>)
      returns (ghost r: Report)
      requires Valid() && Up() && sess.txSeq == 0 && sess.txDir == DIR_SERVER && Commands(sock.input) == all
      requires sess.key == KeyOf(p, a)
      requires p.cipher == aead.cipher && p.table == shell.table && p.digest == shell.ota.driver.digest
      requires OnlyGreeted(p, before, At(sock, rng), said)
      requires Granted(before.memory, p.crypto, p.token, p.source, before.drawn, before.input, a, all)
      modifies sock, sess, aead, buffer, shell`lastErr, shell.ota, shell.ota.driver
      ensures Valid() && Sound(Account(p, before, At(sock, rng), a, all, said, r))
      ensures sock.reliable ==> r.intact
      ensures sock.reliable && aead.reliable ==> r.missing == 0 && Lines(r.turns) == all
    {
      hide Sound, Granted, Looped, OnlyGreeted, Deframe, KeyOf, Lines, Genuine, AllGenuine;
      ghost var middle := At(sock, rng);
      r := CommandLoop(sock);
      ServedIsSound(p, before, middle, At(sock, rng), a, all, said, r);
    }

    /** The handshake and, if it succeeds, the command loop. */
    method Converse(sock: Socket, rng: Rng, crypto: Crypto, token: bytes) returns (ghost x: Account)
      requires Valid() && sess.Value() == WIPED
      modifies this, sock, rng, sess, aead, buffer, shell`lastErr, shell.ota, shell.ota.driver
      ensures Valid() && Sound(x)
      ensures x.p == old(With(rng, crypto, token)) && x.before == old(At(sock, rng)) && x.after == At(sock, rng)
      ensures sock.reliable && old(sock.interrupts) == 0 && crypto.reliable ==>
                x.all == AllCommands(old(aead.table), crypto, token, rng.source, old(rng.drawn), old(sock.input))
      ensures sock.reliable ==> x.r.intact
      ensures sock.reliable && aead.reliable ==> x.r.missing == 0 && Lines(x.r.turns) == x.all
    {
      ghost var p, before := With(rng, crypto, token), At(sock, rng);
      assert p == old(With(rng, crypto, token)) && before == old(At(sock, rng));
      ghost var a, all, said, r := Admission(0, [], []), [], [], NOTHING_DONE;
      var ok;
      ok, a, all, said := Accept(sock, rng, crypto, token);
      if ok {
        r := AnswerAll(sock, rng, p, before, a, all, said);
      } else {
        GreetedIsSound(p, before, At(sock, rng), a, all, said);
      }
      ghost var after := At(sock, rng);
      assert after == At(sock, rng);
      x := Account(p, before, after, a, all, said, r);
    }

    /** session_loop, from accept to teardown. `x` is the account of it up to teardown,
        which leaves no session and no upload, and else changes nothing. Unless something
        fails, the commands run are all that the stream carries. */
    method RunSession(sock: Socket, rng: Rng, crypto: Crypto, token: bytes) returns (ghost x: Account)
      requires Valid() && sess.Value() == WIPED
      modifies this, sock, rng, sess, aead, buffer, shell`lastErr, shell.ota, shell.ota.driver
      ensures Valid() && !authed && !online && sess.Value() == WIPED && Sound(x)
      ensures x.p == old(With(rng, crypto, token)) && x.before == old(At(sock, rng))
      ensures rng.drawn == x.after.drawn && sock.output == x.after.output && aead.table == x.after.memory
      ensures shell.ota.Now() == x.after.now.(upload := None)
      ensures sock.reliable && old(sock.interrupts) == 0 && crypto.reliable ==>
                x.all == AllCommands(old(aead.table), crypto, token, rng.source, old(rng.drawn), old(sock.input))
      ensures sock.reliable ==> x.r.intact
      ensures sock.reliable && aead.reliable ==> x.r.missing == 0 && Lines(x.r.turns) == x.all
    {
      hide Sound, Lengths;
      x := Converse(sock, rng, crypto, token);
      assert x.after.now == shell.ota.Now() && x.after.drawn == rng.drawn;
      assert x.after.output == sock.output && x.after.memory == aead.table;
      Teardown();
    }
  }

  /** The commands a byte stream makes the device run, from the greeting on. */
  function AllCommands(t: Table, crypto: Crypto, token: bytes, source: Source, first: nat, stream: bytes): seq<bytes> {
    var a := Admit(crypto.mac, token, source, first, MAX_ATTEMPTS, stream);
    if a.None? then [] else
    ReceiveAll(t, ServerSession(crypto, token, source, a.value), Deframe(a.value.rest, FRAME_CAP), MAX_LINE)
  }

  /** End to end, for every list of commands: a client that answers the first
      challenge and then sends its commands sealed in order, under the key of the
      handshake, has exactly these commands run. */
  lemma HonestClientIsServed(
    t: Table, crypto: Crypto, token: bytes, source: Source, first: nat, cnonce: bytes,
    c: Cipher, commands: seq<bytes>, frames: seq<bytes>)
    requires token != [] && |cnonce| == NONCE_LEN && |commands| < TWO_64
    requires SealsAll(c, SessionKey(crypto.kdf, token, source(first), cnonce), DIR_CLIENT, MAX_LINE, t, 0,
                      commands, frames)
    ensures var line := AuthLine(cnonce, Proof(crypto.mac, token, source(first), cnonce));
            AllCommands(t, crypto, token, source, first, line + [LF] + Flatten(frames)) == commands
  {
    var key := SessionKey(crypto.kdf, token, source(first), cnonce);
    HandshakeAgreement(crypto, token, source, first, cnonce, MAX_ATTEMPTS, Flatten(frames), []);
    SealedAreFrames(c, key, DIR_CLIENT, MAX_LINE, t, commands, frames);
    DeframeInverts(frames, [], FRAME_CAP);
    assert Flatten(frames) + [] == Flatten(frames) && frames + [] == frames;
    ReceiveInOrder(c, key, DIR_CLIENT, DIR_SERVER, MAX_LINE, t, 0, commands, frames, MAX_LINE);
  }
}
