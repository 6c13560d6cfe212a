/** The client's side of a session: send_cmd, recv_reply and recv_cmd_reply of
    tools/esp-ctl/src/esp-ctl.c. */
module Client {
  import opened AeadLibrary
  import opened Bytes
  import opened ClientProto
  import opened Dispatch
  import opened Events
  import opened Framing
  import opened Sockets
  import opened Tokenizer
  import opened Turns
  import opened Wire

  const FRAME_CAP := HEADER_LEN + MAX_RESP + TAG_LEN
  const COMMAND_CAP := HEADER_LEN + MAX_LINE + TAG_LEN
  const REPLY_CAP := 8192

  /** What the client will have read when all of `stream` has arrived. */
  ghost function Incoming(t: Table, s: Session, stream: bytes): seq<bytes> {
    ReceiveAll(t, s, Deframe(stream, FRAME_CAP), REPLY_CAP - 1)
  }

  /** What the client seals does not matter to what it reads. */
  lemma AskingKeepsInput(
    c: Cipher, s: Session, t: Table, out: bytes, cmd: bytes, s': Session, t': Table, out': bytes, ok: bool,
    stream: bytes)
    requires Posts(c, s, t, out, cmd, COMMAND_CAP, s', t', out', ok) && s.txSeq < TWO_64 && s.rxSeq < TWO_64
    ensures s.txDir != s.rxDir ==> Incoming(t', s', stream) == Incoming(t, s, stream)
  {
    if s.txDir != s.rxDir && s' != s {
      var e := Encrypt(c, s, cmd, COMMAND_CAP).value;
      ReceiveIgnoresOwn(t, s, e.slot, cmd, s.txSeq, Next64(s.txSeq), Deframe(stream, FRAME_CAP), REPLY_CAP - 1);
    }
  }

  /** send_cmd: the command is sealed and its frame written, all of it if `ok`; or
      nothing happens. */
  method SendCmd(sock: Socket, sess: ClientSession, aead: Aead, cmd: bytes) returns (ok: bool)
    requires sess.Valid() && Lengths(aead.table)
    modifies sock`output, sock`interrupts, sess`txSeq, aead
    ensures sess.Valid() && Lengths(aead.table)
    ensures Posts(aead.cipher, old(sess.Value()), old(aead.table), old(sock.output), cmd, COMMAND_CAP,
                  sess.Value(), aead.table, sock.output, ok)
    ensures sock.reliable ==> ok || sess.Value() == old(sess.Value())
    ensures aead.reliable && sock.reliable && sess.established && |cmd| <= MAX_LINE ==> ok
    ensures sess.txDir != sess.rxDir ==>
              Incoming(aead.table, sess.Value(), sock.input) == old(Incoming(aead.table, sess.Value(), sock.input))
  {
    ghost var s, t, out := sess.Value(), aead.table, sock.output;
    if |cmd| > MAX_LINE {
      return false;
    }
    var buf := new byte[COMMAND_CAP];
    var n;
    ok, n := sess.FrameEncrypt(aead, cmd, buf);
    if ok {
      ok := WriteFull(sock, buf[..n]);
    }
    AskingKeepsInput(aead.cipher, s, t, out, cmd, sess.Value(), aead.table, sock.output, ok, sock.input);
  }

  /** recv_reply: the next line, or `None`. */
  method RecvReply(sock: Socket, sess: ClientSession, aead: Aead) returns (line: Option<bytes>)
    requires sess.Valid() && Lengths(aead.table)
    modifies sock`input, sock`interrupts, sess`rxSeq
    ensures sess.Valid()
    ensures var before := Incoming(aead.table, old(sess.Value()), old(sock.input));
            && (line.Some? ==> before == [line.value] + Incoming(aead.table, sess.Value(), sock.input))
            && (line.Some? ==> |sock.input| < |old(sock.input)|)
            && (line.None? && sock.reliable && aead.reliable ==> before == [])
  {
    var frame := new byte[FRAME_CAP];
    var n := RecvFrame(sock, frame);
    if n <= 0 {
      return None;
    }
    var out := new byte[REPLY_CAP];
    var ok, len := sess.FrameDecrypt(aead, frame, n, out, REPLY_CAP - 1);
    line := if ok then Some(out[..len]) else None;
  }

  /** recv_cmd_reply: events on the way are passed over, and the first other line is
      the reply; `None` means that no such line comes. */
  method RecvCmdReply(sock: Socket, sess: ClientSession, aead: Aead) returns (reply: Option<bytes>)
    requires sess.Valid() && Lengths(aead.table)
    modifies sock`input, sock`interrupts, sess`rxSeq
    ensures sess.Valid()
    ensures var before := NonEvents(Incoming(aead.table, old(sess.Value()), old(sock.input)));
            && (reply.Some? ==> !IsEvent(reply.value))
            && (reply.Some? && 4 <= |reply.value| ==> reply.value[..4] != [69, 86, 84, 32])
            && (reply.Some? ==> before == [reply.value] + NonEvents(Incoming(aead.table, sess.Value(), sock.input)))
            && (reply.None? && sock.reliable && aead.reliable ==> before == [])
  {
    ghost var all := NonEvents(Incoming(aead.table, sess.Value(), sock.input));
    while true
      invariant sess.Valid()
      invariant NonEvents(Incoming(aead.table, sess.Value(), sock.input)) == all
      decreases |sock.input|
    {
      var line := RecvReply(sock, sess, aead);
      if line.None? {
        return None;
      }
      if !IsEvent(line.value) {
        return line;
      }
    }
  }

  /** One command and its reply: the command is posted, and the reply is the first line
      still to be read that is no event; `None` when either gets lost. */
  method Exchange(sock: Socket, sess: ClientSession, aead: Aead, cmd: bytes) returns (sent: bool, reply: Option<bytes>)
    requires sess.Valid() && Lengths(aead.table) && sess.txDir != sess.rxDir
    modifies sock, sess`txSeq, sess`rxSeq, aead
    ensures sess.Valid() && Lengths(aead.table)
    ensures Posts(aead.cipher, old(sess.Value()).(rxSeq := sess.rxSeq), old(aead.table), old(sock.output), cmd,
                  COMMAND_CAP, sess.Value(), aead.table, sock.output, sent)
    ensures sock.reliable ==> sent || sess.txSeq == old(sess.txSeq)
    ensures var before := NonEvents(old(Incoming(aead.table, sess.Value(), sock.input)));
            reply.Some? ==>
              && sent && !IsEvent(reply.value)
              && before == [reply.value] + NonEvents(Incoming(aead.table, sess.Value(), sock.input))
    ensures sock.reliable && aead.reliable && sess.established && |cmd| <= MAX_LINE ==>
              sent && (reply.None? ==> NonEvents(old(Incoming(aead.table, sess.Value(), sock.input))) == [])
  {
    sent := SendCmd(sock, sess, aead, cmd);
    if !sent {
      return sent, None;
    }
    reply := RecvCmdReply(sock, sess, aead);
  }

  /** The exit code of do_one_shot, by way of print_reply. */
  function ExitCode(reply: Option<bytes>): int {
    if reply.None? then 3
    else if !StartsOk(reply.value) && StartsWith(reply.value, Ascii("ERR ")) then 4
    else 0
  }

  /** The code tells how the command went: 0 exactly when the line was blank or its
      handler succeeded, however the reply was cut, and 4 for every other answer. */
  lemma ExitCodeIsVerdict(table: seq<Entry>, line: bytes, r: Outcome)
    ensures var toks := Tokens(CString(line), 0, MAX_ARGV);
            var succeeded := toks == [] || (Find(table, toks[0]).Some? && r.ok);
            ExitCode(Some(ReplyTo(table, line, r))) == if succeeded then 0 else 4
  {
    RepliesAreNotEvents(table, Tokens(CString(line), 0, MAX_ARGV), r, MAX_RESP);
  }

  /** do_one_shot: the command is posted, and the code is that of the first non-event
      that arrives; unless something fails, it is 3 exactly if none does. */
  method DoOneShot(sock: Socket, sess: ClientSession, aead: Aead, cmd: bytes)
    returns (rc: int, sent: bool, reply: Option<bytes>)
    requires sess.Valid() && Lengths(aead.table) && sess.txDir != sess.rxDir
    modifies sock, sess`txSeq, sess`rxSeq, aead
    ensures sess.Valid() && Lengths(aead.table) && rc == ExitCode(reply) && (reply.Some? ==> sent)
    ensures Posts(aead.cipher, old(sess.Value()).(rxSeq := sess.rxSeq), old(aead.table), old(sock.output), cmd,
                  COMMAND_CAP, sess.Value(), aead.table, sock.output, sent)
    ensures var before := NonEvents(old(Incoming(aead.table, sess.Value(), sock.input)));
            && (reply.Some? ==> before != [] && before[0] == reply.value)
            && (sock.reliable && aead.reliable && sess.established && |cmd| <= MAX_LINE ==>
                  sent && (rc == 3 <==> before == []))
  {
    sent, reply := Exchange(sock, sess, aead, cmd);
    if reply.None? {
      return 3, sent, reply;
    }
    rc := if StartsOk(reply.value) then 0 else if StartsWith(reply.value, Ascii("ERR ")) then 4 else 0;
  }

  /** A line typed into the shell, without its end. */
  function Stripped(s: bytes): (r: bytes)
    ensures r <= s
  {
    if s != [] && (s[|s| - 1] == LF || s[|s| - 1] == CR) then Stripped(s[..|s| - 1]) else s
  }

  /** The commands among the lines typed, up to `exit` or `quit`. */
  function Typed(lines: seq<bytes>): seq<bytes> {
    if lines == [] then [] else
    var line := Stripped(lines[0]);
    if line == [] then Typed(lines[1..])
    else if line == Ascii("exit") || line == Ascii("quit") then []
    else [line] + Typed(lines[1..])
  }

  lemma TypedStep(asked: seq<bytes>, lines: seq<bytes>, k: nat)
    requires k < |lines|
    ensures var line, rest := Stripped(lines[k]), Typed(lines[k + 1..]);
            asked + Typed(lines[k..]) ==
            if line == [] then asked + rest
            else if line == Ascii("exit") || line == Ascii("quit") then asked
            else asked + [line] + rest
  {
    assert lines[k..][1..] == lines[k + 1..];
    Regroup(asked, [Stripped(lines[k])], Typed(lines[k + 1..]));
    assert asked + [] == asked;
  }

  /** The start of a frame that did not get through, or nothing. */
  ghost predicate IsCut(cut: bytes) {
    cut == [] || exists f :: IsFrame(f, COMMAND_CAP) && cut < f
  }

  /** The commands are sealed, in order, under the counters from `s0` on, and behind
      `out0` stand their frames and then at most a part of one more. */
  ghost predicate Asked(
    c: Cipher, s0: Session, out0: bytes, t: Table, out: bytes, asked: seq<bytes>, frames: seq<bytes>, cut: bytes)
  {
    && |frames| == |asked| && IsCut(cut) && out == out0 + Flatten(frames) + cut
    && (s0.txSeq + |asked| < TWO_64 ==> SealsAll(c, s0.key, s0.txDir, MAX_LINE, t, s0.txSeq, asked, frames))
  }

  /** `n` frames after `s0`, on the same connection. */
  ghost predicate Counted(s0: Session, s: Session, n: nat) {
    && s.key == s0.key && s.txDir == s0.txDir && s.rxDir == s0.rxDir && s.established == s0.established
    && (s0.txSeq + n < TWO_64 ==> s.txSeq == s0.txSeq + n)
  }

  lemma SealOneMore(
    c: Cipher, s0: Session, s: Session, t: Table, asked: seq<bytes>, frames: seq<bytes>, cmd: bytes, e: Sealed)
    requires Counted(s0, s, |asked|) && Encrypt(c, s, cmd, COMMAND_CAP) == Some(e) && s0.txSeq + |asked| < TWO_64
    requires SealsAll(c, s0.key, s0.txDir, MAX_LINE, t, s0.txSeq, asked, frames)
    ensures SealsAll(c, s0.key, s0.txDir, MAX_LINE, t[e.slot := cmd], s0.txSeq, asked, frames)
    ensures SealsAll(c, s0.key, s0.txDir, MAX_LINE, t[e.slot := cmd], s0.txSeq, asked + [cmd], frames + [e.frame])
  {
    SealsAllAppend(c, s0.key, s0.txDir, MAX_LINE, t, s0.txSeq, asked, frames, cmd);
  }

  /** One more command gets through. */
  lemma AskWhole(
    c: Cipher, s0: Session, out0: bytes, s: Session, t: Table, out: bytes, asked: seq<bytes>, frames: seq<bytes>,
    cmd: bytes, e: Sealed)
    requires Counted(s0, s, |asked|) && Asked(c, s0, out0, t, out, asked, frames, [])
    requires Encrypt(c, s, cmd, COMMAND_CAP) == Some(e)
    ensures Asked(c, s0, out0, t[e.slot := cmd], out + e.frame, asked + [cmd], frames + [e.frame], [])
    ensures Counted(s0, e.session, |asked| + 1)
  {
    if s0.txSeq + |asked| < TWO_64 {
      SealOneMore(c, s0, s, t, asked, frames, cmd, e);
    }
    assert Written(frames, out0, out);
    WrittenStep(out0, frames, e.frame, out);
    assert out + e.frame == out + e.frame + [];
  }

  /** Only a part of the next command gets through. */
  lemma AskPart(
    c: Cipher, s0: Session, out0: bytes, s: Session, t: Table, out: bytes, asked: seq<bytes>, frames: seq<bytes>,
    cmd: bytes, e: Sealed, cut: bytes)
    requires Counted(s0, s, |asked|) && Asked(c, s0, out0, t, out, asked, frames, []) && s.txSeq < TWO_64
    requires Encrypt(c, s, cmd, COMMAND_CAP) == Some(e) && cut < e.frame
    ensures Asked(c, s0, out0, t[e.slot := cmd], out + cut, asked, frames, cut)
  {
    if s0.txSeq + |asked| < TWO_64 {
      SealOneMore(c, s0, s, t, asked, frames, cmd, e);
    }
    SealedIsFrame(c, s, cmd, COMMAND_CAP);
  }

  lemma AskOne(
    c: Cipher, s0: Session, out0: bytes, s: Session, t: Table, out: bytes, asked: seq<bytes>, frames: seq<bytes>,
    cmd: bytes, s': Session, t': Table, out': bytes, ok: bool)
    returns (asked': seq<bytes>, frames': seq<bytes>, cut: bytes)
    requires Counted(s0, s, |asked|) && Asked(c, s0, out0, t, out, asked, frames, []) && s.txSeq < TWO_64
    requires Posts(c, s, t, out, cmd, COMMAND_CAP, s', t', out', ok)
    ensures Asked(c, s0, out0, t', out', asked', frames', cut)
    ensures if ok then asked' == asked + [cmd] && cut == [] && Counted(s0, s', |asked'|) else asked' == asked
    ensures s' == s ==> cut == []
  {
    asked', frames', cut := asked, frames, [];
    if s' != s {
      var e := Encrypt(c, s, cmd, COMMAND_CAP).value;
      if ok {
        AskWhole(c, s0, out0, s, t, out, asked, frames, cmd, e);
        asked', frames' := asked + [cmd], frames + [e.frame];
      } else {
        cut := out'[|out|..];
        assert out' == out + cut && cut < e.frame;
        AskPart(c, s0, out0, s, t, out, asked, frames, cmd, e, cut);
      }
    }
  }

  /** fgets never takes more than the buffer of one command. */
  ghost predicate AllShort(lines: seq<bytes>) {
    forall k :: 0 <= k < |lines| ==> |lines[k]| <= MAX_LINE
  }

  /** One command of the shell, and its reply. */
  method ShellTurn(
    sock: Socket, sess: ClientSession, aead: Aead, line: bytes, ghost s0: Session, ghost out0: bytes,
    ghost asked0: seq<bytes>, ghost frames0: seq<bytes>)
    returns (reply: Option<bytes>, ghost asked: seq<bytes>, ghost frames: seq<bytes>, ghost cut: bytes)
    requires sess.Valid() && Lengths(aead.table) && sess.txDir != sess.rxDir
    requires Counted(s0, sess.Value(), |asked0|)
    requires Asked(aead.cipher, s0, out0, aead.table, sock.output, asked0, frames0, [])
    modifies sock, sess`txSeq, sess`rxSeq, aead
    ensures sess.Valid() && Lengths(aead.table) && (asked == asked0 || asked == asked0 + [line])
    ensures Asked(aead.cipher, s0, out0, aead.table, sock.output, asked, frames, cut) && (sock.reliable ==> cut == [])
    ensures var before := NonEvents(old(Incoming(aead.table, sess.Value(), sock.input)));
            && (reply.Some? ==>
                  && asked == asked0 + [line] && cut == [] && Counted(s0, sess.Value(), |asked|)
                  && before == [reply.value] + NonEvents(Incoming(aead.table, sess.Value(), sock.input)))
            && (reply.None? && sock.reliable && aead.reliable && sess.established && |line| <= MAX_LINE ==>
                  asked == asked0 + [line] && before == [])
  {
    ghost var s, t, out := sess.Value(), aead.table, sock.output;
    var sent;
    sent, reply := Exchange(sock, sess, aead, line);
    asked, frames, cut := AskOne(
      aead.cipher, s0, out0, s.(rxSeq := sess.rxSeq), t, out, asked0, frames0,
      line, sess.Value(), aead.table, sock.output, sent);
  }

  /** do_shell: each command is sent when the reply to the one before is in. What is sent
      are the first commands typed, sealed in order, and behind their frames at most a
      part of one more; the replies are the first non-events that arrive, one for each
      command. Unless something fails, the shell ends well exactly if there are enough
      of them. */
  method DoShell(sock: Socket, sess: ClientSession, aead: Aead, lines: seq<bytes>)
    returns (rc: int, ghost asked: seq<bytes>, replies: seq<bytes>, ghost frames: seq<bytes>, ghost cut: bytes)
    requires sess.Valid() && Lengths(aead.table) && sess.txDir != sess.rxDir
    modifies sock, sess`txSeq, sess`rxSeq, aead
    ensures sess.Valid() && Lengths(aead.table) && (rc == 0 || rc == 3)
    ensures Asked(aead.cipher, old(sess.Value()), old(sock.output), aead.table, sock.output, asked, frames, cut)
    ensures replies <= NonEvents(old(Incoming(aead.table, sess.Value(), sock.input)))
    ensures asked <= Typed(lines) && |replies| <= |asked| <= |replies| + 1
    ensures rc == 0 ==> asked == Typed(lines) && |replies| == |asked|
    ensures rc == 0 || sock.reliable ==> cut == []
    ensures var due := NonEvents(old(Incoming(aead.table, sess.Value(), sock.input)));
            sock.reliable && aead.reliable && sess.established && AllShort(lines) ==>
              (rc == 0 <==> |Typed(lines)| <= |due|) && (rc == 3 ==> replies == due)
  {
    asked, replies, frames, cut := [], [], [], [];
    ghost var s0, out0, all := sess.Value(), sock.output, NonEvents(Incoming(aead.table, sess.Value(), sock.input));
    assert out0 == out0 + Flatten([]) + [];
    var k := 0;
    ghost var due, typed := all, Typed(lines);
    assert lines[0..] == lines;
    while k < |lines|
      invariant k <= |lines| && sess.Valid() && Lengths(aead.table) && sess.txDir != sess.rxDir && cut == []
      invariant due == NonEvents(Incoming(aead.table, sess.Value(), sock.input)) && replies + due == all
      invariant |asked| == |replies| && asked + Typed(lines[k..]) == typed
      invariant Counted(s0, sess.Value(), |asked|)
      invariant Asked(aead.cipher, s0, out0, aead.table, sock.output, asked, frames, cut)
    {
      var line := Stripped(lines[k]);
      TypedStep(asked, lines, k);
      k := k + 1;
      if line == [] {
        continue;
      }
      if line == Ascii("exit") || line == Ascii("quit") {
        return 0, asked, replies, frames, cut;
      }
      var reply;
      reply, asked, frames, cut := ShellTurn(sock, sess, aead, line, s0, out0, asked, frames);
      if reply.None? {
        return 3, asked, replies, frames, cut;
      }
      due := NonEvents(Incoming(aead.table, sess.Value(), sock.input));
      Regroup(replies, [reply.value], due);
      replies := replies + [reply.value];
    }
    rc := 0;
  }
}
