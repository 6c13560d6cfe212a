/** That sessions get on: whatever commands the client asks and whatever events the other
    tasks send, in any order, there is a run of the session that delivers all of it. */
module Exchanges {
  import opened Bytes
  import opened Dialogue
  import opened Dispatch
  import opened Events
  import P = Producers
  import opened Wire

  /** No task is sending, and the client has read all that was sent. */
  ghost predicate Calm(key: bytes, tasks: nat, s: State) {
    && s.up && s.read == s.server.lines
    && s.client == NewSession(key, DIR_CLIENT, DIR_SERVER).(txSeq := |s.asked|, rxSeq := |s.read|)
    && s.server.session == NewSession(key, DIR_SERVER, DIR_CLIENT).(txSeq := |s.read|, rxSeq := |s.heard|)
    && s.server.owner.None? && |s.server.buffer| == P.BUFFER_LEN
    && |s.server.pcs| == tasks && forall t :: 0 <= t < tasks ==> s.server.pcs[t] == P.Idle
  }

  /** Every command has been heard and answered. */
  ghost predicate Answered(s: State) {
    !s.waiting && s.heard == s.asked && |s.outcomes| == |s.heard|
  }

  /** The sending system when task `t` has put its line on the socket. */
  function Sent(c: Cipher, s: P.System, t: nat, e: Sealed, line: bytes): P.System
    requires t < |s.pcs|
  {
    s.(pcs := s.pcs[t := P.Idle], session := e.session,
       buffer := e.frame + s.buffer[Min(|e.frame|, |s.buffer|)..], out := s.out + e.frame,
       table := s.table[e.slot := line], lines := s.lines + [line], frames := s.frames + [e.frame])
  }

  ghost predicate Ready(s: P.System, t: nat, line: bytes, e: Sealed, c: Cipher) {
    && t < |s.pcs| && s.pcs[t] == P.Waiting(line) && s.owner.None?
    && Encrypt(c, s.session, line, |s.buffer|) == Some(e)
  }

  lemma SendCompletes(c: Cipher, s: P.System, t: nat, line: bytes, e: Sealed)
    requires Ready(s, t, line, e, c)
    ensures var s1 := P.Do(c, s, P.Take(t));
            var s2 := P.Do(c, s1, P.Seal(t, false));
            var s3 := P.Do(c, s2, P.Write(t, |e.frame|));
            && P.Do(c, s3, P.Give(t)) == Sent(c, s, t, e, line)
            && |s2.lines| > |s1.lines|
  {
    var s1 := P.Do(c, s, P.Take(t));
    assert s1 == s.(pcs := s.pcs[t := P.Locked(line)], owner := Some(t));
    var s2 := P.Do(c, s1, P.Seal(t, false));
    assert s2.pcs == s.pcs[t := P.Writing(|e.frame|, 0)];
    assert s2.buffer[0..|e.frame|] == e.frame;
    var s3 := P.Do(c, s2, P.Write(t, |e.frame|));
    assert s3 == s2.(pcs := s.pcs[t := P.Writing(|e.frame|, |e.frame|)], out := s.out + e.frame);
  }

  function Sending(t: nat, e: Sealed): seq<Step> {
    [Task(P.Take(t)), Task(P.Seal(t, false)), Task(P.Write(t, |e.frame|)), Task(P.Give(t))]
  }

  lemma {:induction false} RunsJoin(c: Cipher, d: Device, s: State, a: seq<Step>, b: seq<Step>)
    ensures Run(c, d, s, a + b) == Run(c, d, Run(c, d, s, a), b)
    decreases |b|
  {
    if b == [] {
      assert a + b == a;
    } else {
      var n := |b| - 1;
      assert (a + b)[..|a + b| - 1] == a + b[..n];
      RunsJoin(c, d, s, a, b[..n]);
    }
  }

  lemma OneStep(c: Cipher, d: Device, s: State, step: Step)
    ensures Run(c, d, s, [step]) == Do(c, d, s, step)
  {
    assert [step][..0] == [];
  }

  lemma TwoSteps(c: Cipher, d: Device, s: State, a: Step, b: Step)
    ensures Run(c, d, s, [a, b]) == Do(c, d, Do(c, d, s, a), b)
  {
    OneStep(c, d, s, a);
    OneStep(c, d, Do(c, d, s, a), b);
    RunsJoin(c, d, s, [a], [b]);
    assert [a] + [b] == [a, b];
  }

  lemma TaskSends(c: Cipher, d: Device, s: State, t: nat, line: bytes, e: Sealed)
    requires Ready(s.server, t, line, e, c)
    ensures Run(c, d, s, Sending(t, e)) == s.(server := Sent(c, s.server, t, e, line))
  {
    hide P.Do, Sent, Ready;
    var k := Sending(t, e);
    SendCompletes(c, s.server, t, line, e);
    var s1 := s.(server := P.Do(c, s.server, P.Take(t)));
    var s2 := s.(server := P.Do(c, s1.server, P.Seal(t, false)));
    var s3 := s.(server := P.Do(c, s2.server, P.Write(t, |e.frame|)));
    TwoSteps(c, d, s, k[0], k[1]);
    TwoSteps(c, d, s2, k[2], k[3]);
    RunsJoin(c, d, s, [k[0], k[1]], [k[2], k[3]]);
    assert k == [k[0], k[1]] + [k[2], k[3]];
  }

  function Calling(s: State, t: nat, line: bytes): State
    requires t < |s.server.pcs|
  {
    s.(server := s.server.(pcs := s.server.pcs[t := P.Waiting(line)]))
  }

  lemma SealedForClient(c: Cipher, key: bytes, tasks: nat, s: State, t: nat, line: bytes) returns (e: Sealed)
    requires Calm(key, tasks, s) && t < tasks && |line| <= MAX_RESP && |s.read| < TWO_64 - 1
    ensures Ready(Calling(s, t, line).server, t, line, e, c) && e.session == s.server.session.(txSeq := |s.read| + 1)
    ensures Decrypt(s.server.table[e.slot := line], s.client, e.frame, REPLY_CAP)
            == Some(Opened(s.client.(rxSeq := |s.read| + 1), line))
    ensures |e.frame| <= P.BUFFER_LEN
  {
    e := Encrypt(c, s.server.session, line, P.BUFFER_LEN).value;
    SealOpenRoundTrip(c, s.server.table, s.server.session, s.client, line, P.BUFFER_LEN, REPLY_CAP);
  }

  /** The client has read a line; it is the reply if it is no event. */
  ghost predicate Arrived(s: State, after: State, line: bytes) {
    && after.asked == s.asked && after.heard == s.heard && after.outcomes == s.outcomes
    && after.read == s.read + [line]
    && if IsEvent(line) then after.waiting && after.returned == s.returned
       else !after.waiting && after.returned == s.returned + [line]
  }

  /** A line that a task has in hand reaches the waiting client. */
  lemma LineArrives(c: Cipher, d: Device, key: bytes, tasks: nat, s: State, t: nat, line: bytes)
    returns (steps: seq<Step>)
    requires Calm(key, tasks, s) && s.waiting && t < tasks && |line| <= MAX_RESP && |s.read| < TWO_64 - 1
    ensures var after := Run(c, d, Calling(s, t, line), steps);
            Arrived(s, after, line) && Calm(key, tasks, after)
  {
    var e := SealedForClient(c, key, tasks, s, t, line);
    var s0 := Calling(s, t, line);
    var s1 := s0.(server := Sent(c, s0.server, t, e, line));
    var get := Get(e.frame, false);
    TaskSends(c, d, s0, t, line, e);
    steps := Sending(t, e) + [get];
    RunsJoin(c, d, s0, Sending(t, e), [get]);
    OneStep(c, d, s1, get);
    GetsLine(c, d, key, tasks, s, t, line, e);
  }

  lemma GetsLine(c: Cipher, d: Device, key: bytes, tasks: nat, s: State, t: nat, line: bytes, e: Sealed)
    requires Calm(key, tasks, s) && s.waiting && t < tasks && |e.frame| <= P.BUFFER_LEN
    requires e.session == s.server.session.(txSeq := |s.read| + 1)
    requires Decrypt(s.server.table[e.slot := line], s.client, e.frame, REPLY_CAP)
             == Some(Opened(s.client.(rxSeq := |s.read| + 1), line))
    ensures var s0 := Calling(s, t, line);
            var after := Do(c, d, s0.(server := Sent(c, s0.server, t, e, line)), Get(e.frame, false));
            Arrived(s, after, line) && Calm(key, tasks, after)
  {
    hide Decrypt, IsEvent;
    var s0 := Calling(s, t, line);
    var s1 := s0.(server := Sent(c, s0.server, t, e, line));
    assert s1.server.pcs == s.server.pcs;
  }

  /** An event as its bytes say: it starts with `EVT `. */
  datatype Event = Event(task: nat, line: bytes)

  ghost predicate MaySend(tasks: nat, e: Event) {
    0 < e.task < tasks && 4 <= |e.line| <= MAX_RESP && e.line[..4] == [69, 86, 84, 32]
  }

  lemma EventByBytes(line: bytes)
    requires 4 <= |line| && line[..4] == [69, 86, 84, 32]
    ensures IsEvent(line)
  {
    assert line[..4] == [line[0], line[1], line[2], line[3]];
  }

  lemma EventArrives(c: Cipher, d: Device, key: bytes, tasks: nat, s: State, e: Event) returns (steps: seq<Step>)
    requires Calm(key, tasks, s) && s.waiting && |s.read| < TWO_64 - 1 && MaySend(tasks, e)
    ensures var after := Run(c, d, s, steps);
            Arrived(s, after, e.line) && Calm(key, tasks, after) && after.waiting
  {
    var call := Task(P.Call(e.task, e.line));
    EventByBytes(e.line);
    assert Do(c, d, s, call) == Calling(s, e.task, e.line);
    var rest := LineArrives(c, d, key, tasks, s, e.task, e.line);
    steps := [call] + rest;
    OneStep(c, d, s, call);
    RunsJoin(c, d, s, [call], rest);
  }

  function Lines(events: seq<Event>): (lines: seq<bytes>)
    ensures |lines| == |events| && forall k :: 0 <= k < |events| ==> lines[k] == events[k].line
  {
    seq(|events|, k requires 0 <= k < |events| => events[k].line)
  }

  lemma {:induction false} EventsArrive(c: Cipher, d: Device, key: bytes, tasks: nat, s: State, events: seq<Event>)
    returns (steps: seq<Step>)
    requires Calm(key, tasks, s) && s.waiting && |s.read| + |events| < TWO_64
    requires forall k :: 0 <= k < |events| ==> MaySend(tasks, events[k])
    ensures var after := Run(c, d, s, steps);
            && Calm(key, tasks, after) && after.waiting && after.asked == s.asked && after.heard == s.heard
            && after.outcomes == s.outcomes && after.returned == s.returned && after.read == s.read + Lines(events)
    decreases |events|
  {
    hide Calm, Run, MaySend;
    steps := [];
    if events == [] {
      NoSteps(c, d, s);
      assert s.read + Lines(events) == s.read;
    } else {
      var first := EventArrives(c, d, key, tasks, s, events[0]);
      var mid := Run(c, d, s, first);
      assert forall k :: 0 <= k < |events| - 1 ==> events[1..][k] == events[k + 1];
      EventIsNoReply(tasks, events[0], s, mid);
      var rest := EventsArrive(c, d, key, tasks, mid, events[1..]);
      steps := first + rest;
      RunsJoin(c, d, s, first, rest);
      assert Lines(events) == [events[0].line] + Lines(events[1..]);
      Regroup(s.read, [events[0].line], Lines(events[1..]));
    }
  }

  lemma NoSteps(c: Cipher, d: Device, s: State)
    ensures Run(c, d, s, []) == s
  {
  }

  lemma EventIsNoReply(tasks: nat, e: Event, s: State, after: State)
    requires MaySend(tasks, e) && Arrived(s, after, e.line)
    ensures after.returned == s.returned && after.waiting
  {
    EventByBytes(e.line);
  }

  /** The client asks and task 0 hears. */
  lemma CommandIsHeard(c: Cipher, d: Device, key: bytes, tasks: nat, s: State, command: bytes)
    returns (steps: seq<Step>)
    requires Calm(key, tasks, s) && Answered(s) && 0 < tasks && |command| <= MAX_LINE && |s.asked| < TWO_64 - 1
    ensures var after := Run(c, d, s, steps);
            && Calm(key, tasks, after) && after.waiting && after.asked == s.asked + [command] == after.heard
            && after.outcomes == s.outcomes && after.returned == s.returned && after.read == s.read
  {
    var e := Encrypt(c, s.client, command, COMMAND_CAP).value;
    SealOpenRoundTrip(c, s.server.table, s.client, s.server.session, command, COMMAND_CAP, MAX_LINE);
    steps := [Ask(command, false), Hear(e.frame, false)];
    TwoSteps(c, d, s, steps[0], steps[1]);
    HearsCommand(c, d, key, tasks, s, command, e);
  }

  lemma HearsCommand(c: Cipher, d: Device, key: bytes, tasks: nat, s: State, command: bytes, e: Sealed)
    requires Calm(key, tasks, s) && Answered(s) && 0 < tasks && |s.asked| < TWO_64 - 1
    requires Encrypt(c, s.client, command, COMMAND_CAP) == Some(e)
    requires Decrypt(s.server.table[e.slot := command], s.server.session, e.frame, MAX_LINE)
             == Some(Opened(s.server.session.(rxSeq := |s.heard| + 1), command))
    ensures var after := Do(c, d, Do(c, d, s, Ask(command, false)), Hear(e.frame, false));
            && Calm(key, tasks, after) && after.waiting && after.asked == s.asked + [command] == after.heard
            && after.outcomes == s.outcomes && after.returned == s.returned && after.read == s.read
  {
    assert e.session == s.client.(txSeq := |s.asked| + 1);
    hide Decrypt, Encrypt;
    var s1 := Do(c, d, s, Ask(command, false));
    assert s1.server == s.server.(table := s.server.table[e.slot := command]);
  }

  /** One command with its outcome, and the events sent before its reply. */
  datatype Turn = Turn(command: bytes, outcome: Outcome, events: seq<Event>)

  ghost predicate Fine(tasks: nat, t: Turn) {
    |t.command| <= MAX_LINE && forall k :: 0 <= k < |t.events| ==> MaySend(tasks, t.events[k])
  }

  /** What a turn adds. */
  ghost predicate Adds(d: Device, t: Turn, s: State, after: State) {
    && after.asked == s.asked + [t.command] && after.outcomes == s.outcomes + [t.outcome]
    && after.returned == s.returned + [d(t.command, t.outcome)]
    && after.read == s.read + Lines(t.events) + [d(t.command, t.outcome)]
  }

  /** The handler reports, and the client gets the reply. */
  lemma ReplyArrives(c: Cipher, d: Device, key: bytes, tasks: nat, s: State, command: bytes, r: Outcome)
    returns (steps: seq<Step>)
    requires Calm(key, tasks, s) && s.waiting && 0 < tasks && |s.read| < TWO_64 - 1 && s.heard == s.asked
    requires |s.heard| == |s.outcomes| + 1 && s.heard[|s.outcomes|] == command
    ensures var after := Run(c, d, s, steps);
            && Calm(key, tasks, after) && Answered(after) && after.asked == s.asked
            && after.outcomes == s.outcomes + [r] && after.returned == s.returned + [d(command, r)]
            && after.read == s.read + [d(command, r)]
  {
    var line, s1 := d(command, r), s.(outcomes := s.outcomes + [r]);
    var rest := LineArrives(c, d, key, tasks, s1, 0, line);
    assert Do(c, d, s, Answer(r)) == Calling(s1, 0, line);
    steps := [Answer(r)] + rest;
    OneStep(c, d, s, Answer(r));
    RunsJoin(c, d, s, [Answer(r)], rest);
  }

  lemma TurnCompletes(c: Cipher, d: Device, key: bytes, tasks: nat, s: State, t: Turn) returns (steps: seq<Step>)
    requires Calm(key, tasks, s) && Answered(s) && 0 < tasks && Fine(tasks, t)
    requires |s.asked| < TWO_64 - 1 && |s.read| + |t.events| < TWO_64 - 1
    ensures var after := Run(c, d, s, steps);
            Calm(key, tasks, after) && Answered(after) && Adds(d, t, s, after)
  {
    var ask := CommandIsHeard(c, d, key, tasks, s, t.command);
    var s1 := Run(c, d, s, ask);
    var told := EventsArrive(c, d, key, tasks, s1, t.events);
    var s2 := Run(c, d, s1, told);
    var reply := ReplyArrives(c, d, key, tasks, s2, t.command, t.outcome);
    steps := ask + told + reply;
    RunsJoin(c, d, s, ask, told);
    RunsJoin(c, d, s, ask + told, reply);
  }

  function Commands(turns: seq<Turn>): seq<bytes> {
    if turns == [] then [] else
    var n := |turns| - 1;
    Commands(turns[..n]) + [turns[n].command]
  }

  function Replies(d: Device, turns: seq<Turn>): seq<bytes> {
    if turns == [] then [] else
    var n := |turns| - 1;
    Replies(d, turns[..n]) + [d(turns[n].command, turns[n].outcome)]
  }

  /** All lines, events included. */
  function AllLines(d: Device, turns: seq<Turn>): seq<bytes> {
    if turns == [] then [] else
    var n := |turns| - 1;
    AllLines(d, turns[..n]) + Lines(turns[n].events) + [d(turns[n].command, turns[n].outcome)]
  }

  /** For any commands and any events there is a run in which all of them arrive: the
      client reads every line and returns, for each command, the device's reply. */
  lemma {:induction false} AnySessionIsPossible(c: Cipher, d: Device, key: bytes, tasks: nat, turns: seq<Turn>)
    returns (steps: seq<Step>)
    requires 0 < tasks && |turns| < TWO_64 - 1 && |AllLines(d, turns)| < TWO_64 - 1
    requires forall k :: 0 <= k < |turns| ==> Fine(tasks, turns[k])
    ensures var s := Run(c, d, Start(key, tasks), steps);
            && Calm(key, tasks, s) && Answered(s) && s.asked == Commands(turns)
            && s.returned == Replies(d, turns) && s.read == AllLines(d, turns)
    ensures |Commands(turns)| == |turns|
    decreases |turns|
  {
    if turns == [] {
      steps := [];
      NoSteps(c, d, Start(key, tasks));
    } else {
      var n := |turns| - 1;
      var before := AnySessionIsPossible(c, d, key, tasks, turns[..n]);
      var s := Run(c, d, Start(key, tasks), before);
      var last := TurnCompletes(c, d, key, tasks, s, turns[n]);
      steps := before + last;
      RunsJoin(c, d, Start(key, tasks), before, last);
    }
  }
}
