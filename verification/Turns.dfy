/** What the command loop of one connection has done so far, as values: the commands it
    has answered, in order, and the lines and frames that have gone out meanwhile. */
module Turns {
  import opened Bytes
  import opened Dispatch
  import opened Events
  import opened Framing
  import opened Ota
  import opened Tokenizer
  import opened Wire

  const FRAME_CAP := HEADER_LEN + MAX_LINE + TAG_LEN
  const BUFFER_LEN := HEADER_LEN + MAX_RESP + TAG_LEN

  /** The reply to a command line whose handler reports `r`. */
  function ReplyTo(table: seq<Entry>, line: bytes, r: Outcome): bytes {
    Truncated(Reply(table, Tokens(CString(line), 0, MAX_ARGV), r), MAX_RESP - 1)
  }

  lemma ReplyIsNoEvent(table: seq<Entry>, line: bytes, r: Outcome)
    ensures !IsEvent(ReplyTo(table, line, r)) && |ReplyTo(table, line, r)| <= MAX_RESP
  {
    RepliesAreNotEvents(table, Tokens(CString(line), 0, MAX_ARGV), r, MAX_RESP);
  }

  /** One command: the line, the OTA state before and after it, the outcome of its
      handler, and the reply. */
  datatype Turn = Turn(line: bytes, before: View, r: Outcome, after: View, reply: bytes)

  function Lines(turns: seq<Turn>): (lines: seq<bytes>)
    ensures |lines| == |turns| && forall i :: 0 <= i < |turns| ==> lines[i] == turns[i].line
  {
    seq(|turns|, i requires 0 <= i < |turns| => turns[i].line)
  }

  function Replies(turns: seq<Turn>): (replies: seq<bytes>)
    ensures |replies| == |turns| && forall i :: 0 <= i < |turns| ==> replies[i] == turns[i].reply
  {
    seq(|turns|, i requires 0 <= i < |turns| => turns[i].reply)
  }

  /** The line was tokenised and dispatched, and the reply says how it went. */
  ghost predicate Genuine(table: seq<Entry>, digest: Digest, t: Turn) {
    match t
    case Turn(line, before, r, after, reply) =>
      && Dispatched(table, digest, Tokens(CString(line), 0, MAX_ARGV), before, r, after)
      && Reports(table, Tokens(CString(line), 0, MAX_ARGV), r, r, after)
      && reply == ReplyTo(table, line, r)
  }

  /** The outcome of a turn is what its handler reports. */
  ghost predicate Truthful(table: seq<Entry>, custom: Outcome, t: Turn) {
    Reports(table, Tokens(CString(t.line), 0, MAX_ARGV), custom, t.r, t.after)
  }

  lemma TruthIsGenuine(table: seq<Entry>, digest: Digest, custom: Outcome, t: Turn)
    requires Dispatched(table, digest, Tokens(CString(t.line), 0, MAX_ARGV), t.before, t.r, t.after)
    requires Truthful(table, custom, t) && t.reply == ReplyTo(table, t.line, t.r)
    ensures Genuine(table, digest, t)
  {
  }

  /** The turns follow one another, from one state to another. */
  ghost predicate Chained(turns: seq<Turn>, first: View, last: View)
    decreases |turns|
  {
    if turns == [] then last == first else
    var n := |turns| - 1;
    turns[n].after == last && Chained(turns[..n], first, turns[n].before)
  }

  ghost predicate AllGenuine(table: seq<Entry>, digest: Digest, turns: seq<Turn>) {
    forall t :: t in turns ==> Genuine(table, digest, t)
  }

  ghost predicate History(table: seq<Entry>, digest: Digest, turns: seq<Turn>, first: View, last: View) {
    AllGenuine(table, digest, turns) && Chained(turns, first, last)
  }

  lemma HistoryStep(table: seq<Entry>, digest: Digest, turns: seq<Turn>, first: View, turn: Turn)
    requires History(table, digest, turns, first, turn.before) && Genuine(table, digest, turn)
    ensures History(table, digest, turns + [turn], first, turn.after)
  {
    assert (turns + [turn])[..|turns|] == turns;
  }

  /** What has been sealed: the lines, replies and events alike, and their frames. */
  datatype Log = Log(lines: seq<bytes>, frames: seq<bytes>)

  /** The `i`-th frame seals the `i`-th line under counter `i`. */
  ghost predicate Sealing(c: Cipher, key: bytes, next: nat, t: Table, log: Log) {
    && |log.frames| == |log.lines|
    && (|log.lines| < TWO_64 ==>
          next == |log.lines| && SealsAll(c, key, DIR_SERVER, MAX_RESP, t, 0, log.lines, log.frames))
  }

  /** A client that cuts the frames out of the stream and opens them reads exactly the
      lines, in order. */
  lemma LogIsRead(c: Cipher, key: bytes, next: nat, t: Table, log: Log, cap: nat)
    requires Sealing(c, key, next, t, log) && |log.lines| < TWO_64 && MAX_RESP <= cap
    ensures ReceiveAll(t, NewSession(key, DIR_CLIENT, DIR_SERVER), Deframe(Flatten(log.frames), BUFFER_LEN), cap)
            == log.lines
  {
    SealedAreFrames(c, key, DIR_SERVER, MAX_RESP, t, log.lines, log.frames);
    DeframeInverts(log.frames, [], BUFFER_LEN);
    assert Flatten(log.frames) + [] == Flatten(log.frames) && log.frames + [] == log.frames;
    ReceiveInOrder(c, key, DIR_SERVER, DIR_CLIENT, MAX_RESP, t, 0, log.lines, log.frames, cap);
  }

  /** One more line is sealed. */
  function Logged(c: Cipher, s: Session, log: Log, line: bytes): Log {
    var e := Encrypt(c, s, line, BUFFER_LEN);
    if e.None? then log else Log(log.lines + [line], log.frames + [e.value.frame])
  }

  lemma SealOne(c: Cipher, s: Session, t: Table, log: Log, line: bytes, e: Option<Sealed>)
    requires Sealing(c, s.key, s.txSeq, t, log) && s.txDir == DIR_SERVER
    requires e == Encrypt(c, s, line, BUFFER_LEN) && e.Some?
    ensures var s' := e.value.session;
            && s'.key == s.key && s'.txDir == s.txDir
            && Sealing(c, s.key, s'.txSeq, t[e.value.slot := line], Logged(c, s, log, line))
  {
    if |log.lines| < TWO_64 {
      SealsAllAppend(c, s.key, DIR_SERVER, MAX_RESP, t, 0, log.lines, log.frames, line);
    }
  }

  /** Everything one turn of the command loop looks at and changes. */
  datatype World = World(
    table: seq<Entry>, digest: Digest, cipher: Cipher, memory: Table, session: Session, now: View,
    input: bytes, output: bytes)

  /** The commands that the rest of the input still carries. */
  function Incoming(w: World): seq<bytes> {
    ReceiveAll(w.memory, w.session, Deframe(w.input, FRAME_CAP), MAX_LINE)
  }

  ghost predicate SendsFrom(w: World, line: bytes, w': World, ok: bool) {
    Posts(w.cipher, w.session.(rxSeq := w'.session.rxSeq), w.memory, w.output, line, BUFFER_LEN,
          w'.session, w'.memory, w'.output, ok)
  }

  /** Another task has sent a line. */
  ghost predicate EventSent(w: World, line: bytes, w': World, ok: bool) {
    && w'.table == w.table && w'.digest == w.digest && w'.cipher == w.cipher && w'.now == w.now
    && IsEvent(line) && Incoming(w') == Incoming(w) && SendsFrom(w, line, w', ok)
  }

  /** The next command was received and answered, and the reply sent if `ok`. */
  ghost predicate TurnEnds(w: World, turn: Turn, w': World, ok: bool) {
    && w'.table == w.table && w'.digest == w.digest && w'.cipher == w.cipher
    && Genuine(w.table, w.digest, turn) && turn.before == w.now && turn.after == w'.now
    && Incoming(w) == [turn.line] + Incoming(w') && SendsFrom(w, turn.reply, w', ok)
  }

  /** The turns, in order, are those of the first of `all` commands, and the others are
      still to come. */
  ghost predicate Told(
    table: seq<Entry>, digest: Digest, first: View, now: View, all: seq<bytes>, left: seq<bytes>, turns: seq<Turn>)
  {
    History(table, digest, turns, first, now) && Lines(turns) + left == all
  }

  lemma ToldStep(
    table: seq<Entry>, digest: Digest, first: View, all: seq<bytes>, left: seq<bytes>, turns: seq<Turn>, turn: Turn,
    left': seq<bytes>)
    requires Told(table, digest, first, turn.before, all, left, turns) && Genuine(table, digest, turn)
    requires left == [turn.line] + left'
    ensures Told(table, digest, first, turn.after, all, left', turns + [turn])
  {
    HistoryStep(table, digest, turns, first, turn);
    LinesStep(turns, turn, all, left');
  }

  lemma LinesStep(turns: seq<Turn>, turn: Turn, all: seq<bytes>, rest: seq<bytes>)
    requires Lines(turns) + ([turn.line] + rest) == all
    ensures Lines(turns + [turn]) + rest == all
  {
    assert Lines(turns + [turn]) == Lines(turns) + [turn.line];
    Regroup(Lines(turns), [turn.line], rest);
  }

  /** The non-events among the lines sealed are the replies, in order; the last
      `missing` ones are still to come. */
  ghost predicate Answered(lines: seq<bytes>, turns: seq<Turn>, missing: nat) {
    missing <= |turns| && NonEvents(lines) == Replies(turns)[..|turns| - missing]
  }

  /** Behind `out0` stand the frames. */
  ghost predicate Written(frames: seq<bytes>, out0: bytes, out: bytes) {
    out == out0 + Flatten(frames)
  }

  /** The command loop has come from `w0` to `w`: the commands told, in order, from state
      to state; the lines sealed; and the frames written, as long as no write failed. */
  ghost predicate Reached(w0: World, w: World, turns: seq<Turn>, log: Log, missing: nat, intact: bool) {
    && w.table == w0.table && w.digest == w0.digest && w.cipher == w0.cipher
    && w.session.key == w0.session.key && w.session.txDir == DIR_SERVER
    && Told(w0.table, w0.digest, w0.now, w.now, Incoming(w0), Incoming(w), turns)
    && Sealing(w0.cipher, w0.session.key, w.session.txSeq, w.memory, log)
    && Answered(log.lines, turns, missing)
    && (intact ==> Written(log.frames, w0.output, w.output))
  }

  lemma StartIsReached(w: World)
    requires w.session.txSeq == 0 && w.session.txDir == DIR_SERVER
    ensures Reached(w, w, [], Log([], []), 0, true)
  {
    assert Lines([]) + Incoming(w) == Incoming(w);
    assert w.output + Flatten([]) == w.output;
  }

  lemma AnsweredStep(lines: seq<bytes>, turns: seq<Turn>, turn: Turn)
    requires Answered(lines, turns, 0) && !IsEvent(turn.reply)
    ensures Answered(lines, turns + [turn], 1) && Answered(lines + [turn.reply], turns + [turn], 0)
  {
    NonEventsAppend(lines, turn.reply);
    var all := Replies(turns + [turn]);
    assert all[..|turns|] == Replies(turns) && Replies(turns)[..|turns|] == Replies(turns);
    assert all[..|turns| + 1] == Replies(turns) + [turn.reply];
  }

  lemma WrittenStep(out0: bytes, frames: seq<bytes>, frame: bytes, out: bytes)
    requires Written(frames, out0, out)
    ensures Written(frames + [frame], out0, out + frame)
  {
    FlattenAppend(frames, frame);
    Regroup(out0, Flatten(frames), frame);
  }

  /** A call of send_frame in terms of the log: what it seals is logged, and the output
      stays the frames logged if the call succeeds or does nothing. */
  lemma PostLogs(
    c: Cipher, s: Session, t: Table, out0: bytes, out: bytes, log: Log, intact: bool,
    line: bytes, s': Session, t': Table, out': bytes, ok: bool)
    returns (log': Log, intact': bool)
    requires Sealing(c, s.key, s.txSeq, t, log) && s.txDir == DIR_SERVER
    requires Posts(c, s, t, out, line, BUFFER_LEN, s', t', out', ok) && (intact ==> Written(log.frames, out0, out))
    ensures s'.key == s.key && s'.txDir == s.txDir && Sealing(c, s.key, s'.txSeq, t', log')
    ensures log'.lines == if s' == s then log.lines else log.lines + [line]
    ensures (intact' ==> Written(log'.frames, out0, out')) && (ok || s' == s ==> intact' == intact)
  {
    if s' == s {
      log', intact' := log, intact;
    } else {
      var e := Encrypt(c, s, line, BUFFER_LEN);
      SealOne(c, s, t, log, line, e);
      log', intact' := Logged(c, s, log, line), intact && ok;
      if intact' {
        WrittenStep(out0, log.frames, e.value.frame, out);
      }
    }
  }

  lemma EventKeeps(w0: World, v: World, turns: seq<Turn>, log: Log, intact: bool, line: bytes, w: World, ok: bool)
    returns (log': Log, intact': bool)
    requires Reached(w0, v, turns, log, 0, intact) && EventSent(v, line, w, ok)
    ensures Reached(w0, w, turns, log', 0, intact')
    ensures ok || w.session == v.session ==> intact' == intact
  {
    log', intact' := PostLogs(
      w0.cipher, v.session.(rxSeq := w.session.rxSeq), v.memory, w0.output, v.output, log, intact,
      line, w.session, w.memory, w.output, ok);
    NonEventsAppend(log.lines, line);
    assert NonEvents(log.lines) + [] == NonEvents(log.lines);
  }

  lemma TurnKeeps(w0: World, v: World, turns: seq<Turn>, log: Log, intact: bool, turn: Turn, w: World, ok: bool)
    returns (log': Log, missing: nat, intact': bool)
    requires Reached(w0, v, turns, log, 0, intact) && TurnEnds(v, turn, w, ok)
    ensures missing <= 1 && Reached(w0, w, turns + [turn], log', missing, intact')
    ensures ok ==> missing == 0
    ensures ok || w.session.txSeq == v.session.txSeq ==> intact' == intact
  {
    ToldStep(w0.table, w0.digest, w0.now, Incoming(w0), Incoming(v), turns, turn, Incoming(w));
    log', intact' := PostLogs(
      w0.cipher, v.session.(rxSeq := w.session.rxSeq), v.memory, w0.output, v.output, log, intact,
      turn.reply, w.session, w.memory, w.output, ok);
    missing := if |log'.lines| == |log.lines| then 1 else 0;
    ReplyIsNoEvent(v.table, turn.line, turn.r);
    AnsweredStep(log.lines, turns, turn);
  }

  /** The account of a command loop: the turns, what was sealed and the counter behind
      it, how many replies are missing, and whether every write succeeded. */
  datatype Report = Report(turns: seq<Turn>, log: Log, next: nat, missing: nat, intact: bool)

  const NOTHING_DONE := Report([], Log([], []), 0, 0, true)

  /** What was sealed has consecutive counters; its non-events are the replies, of which
      only the last may be missing; and unless a write failed, its frames stand behind
      the earlier output. */
  ghost predicate Reported(c: Cipher, key: bytes, t: Table, out0: bytes, out: bytes, r: Report) {
    match r
    case Report(turns, log, next, missing, intact) =>
      && Sealing(c, key, next, t, log)
      && missing <= 1 && Answered(log.lines, turns, missing)
      && (intact ==> Written(log.frames, out0, out))
  }

  /** What a command loop does, told `all` that there is to receive: the turns follow one
      another and answer the first of these lines, and the report tells what went out. */
  ghost predicate Looped(
    c: Cipher, table: seq<Entry>, digest: Digest, key: bytes, all: seq<bytes>, now0: View, out0: bytes,
    now: View, out: bytes, t: Table, r: Report)
  {
    match r
    case Report(turns, _, _, _, _) =>
      && History(table, digest, turns, now0, now) && Lines(turns) <= all
      && Reported(c, key, t, out0, out, r)
  }

  lemma NothingIsLooped(
    c: Cipher, table: seq<Entry>, digest: Digest, key: bytes, all: seq<bytes>, now: View, out: bytes, t: Table)
    ensures Looped(c, table, digest, key, all, now, out, now, out, t, NOTHING_DONE)
  {
    assert out + Flatten([]) == out;
  }

  lemma ReachedMeans(w0: World, w: World, turns: seq<Turn>, log: Log, missing: nat, intact: bool)
    requires Reached(w0, w, turns, log, missing, intact) && missing <= 1
    ensures Looped(w0.cipher, w0.table, w0.digest, w0.session.key, Incoming(w0), w0.now, w0.output,
                   w.now, w.output, w.memory, Report(turns, log, w.session.txSeq, missing, intact))
    ensures Incoming(w) == [] ==> Lines(turns) == Incoming(w0)
  {
    assert Lines(turns) + [] == Lines(turns);
  }
}
