/** A whole session: the command handler of net.c as one of several tasks that send, and
    the client of esp-ctl.c, which asks one command after the other, over a network that
    may deliver any bytes to either side. */
module Dialogue {
  import opened Bytes
  import opened Dispatch
  import opened Events
  import opened Framing
  import Producers
  import opened SecureChannel
  import opened Turns
  import opened Wire

  const COMMAND_CAP := HEADER_LEN + MAX_LINE + TAG_LEN
  const REPLY_CAP := 8191

  /** How a device answers a command whose handler reports an outcome. */
  type Device = f: (bytes, Outcome) -> bytes
    | forall l, r :: !IsEvent(f(l, r)) && |f(l, r)| <= MAX_RESP
    witness (l, r) => []

  /** The firmware: it tokenises and dispatches. */
  function Firmware(table: seq<Entry>): (d: Device)
    ensures forall l, r :: d(l, r) == ReplyTo(table, l, r)
  {
    AllRepliesFit(table);
    (l, r) => ReplyTo(table, l, r)
  }

  lemma AllRepliesFit(table: seq<Entry>)
    ensures forall l, r :: !IsEvent(ReplyTo(table, l, r)) && |ReplyTo(table, l, r)| <= MAX_RESP
  {
    forall l, r
      ensures !IsEvent(ReplyTo(table, l, r)) && |ReplyTo(table, l, r)| <= MAX_RESP
    {
      ReplyIsNoEvent(table, l, r);
    }
  }

  /** `heard` are the commands that task 0 has received, `outcomes` what the handlers of
      the first of them have reported; `asked` are the commands the client has sent,
      `read` all lines and `returned` all replies that it has received. */
  datatype State = State(
    server: Producers.System, up: bool, heard: seq<bytes>, outcomes: seq<Outcome>,
    client: Session, asked: seq<bytes>, read: seq<bytes>, returned: seq<bytes>, waiting: bool)

  /** `Task` is a step inside send_frame, or the start of an event in a task other than 0;
      the other steps are those of session_loop, send_cmd and recv_cmd_reply. */
  datatype Step =
    | Task(step: Producers.Step)
    | Hear(frame: bytes, fault: bool)
    | Answer(r: Outcome)
    | Ask(command: bytes, fault: bool)
    | Get(frame: bytes, fault: bool)

  function Start(key: bytes, tasks: nat): State {
    State(Producers.Start(key, tasks), true, [], [], NewSession(key, DIR_CLIENT, DIR_SERVER), [], [], [], false)
  }

  /** Is task 0 in session_loop, outside send_frame? */
  predicate InLoop(s: State) {
    s.up && 0 < |s.server.pcs| && s.server.pcs[0].Idle?
  }

  /** A failed send of task 0 ends the session loop; nobody looks at that of an event. */
  function DoTask(c: Cipher, s: State, step: Producers.Step): State {
    match step
    case Call(task, line) => if task == 0 || !IsEvent(line) then s else s.(server := Producers.Do(c, s.server, step))
    case Seal(task, fault) =>
      var after := Producers.Do(c, s.server, step);
      s.(server := after, up := s.up && (task != 0 || |after.lines| > |s.server.lines| || after == s.server))
    case _ => s.(server := Producers.Do(c, s.server, step))
  }

  function DoHear(s: State, frame: bytes, fault: bool): State {
    var r := Decrypt(s.server.table, s.server.session, frame, MAX_LINE);
    if !InLoop(s) || |s.outcomes| != |s.heard| then s
    else if fault || r.None? then s.(up := false)
    else s.(heard := s.heard + [r.value.plain], server := s.server.(session := r.value.session))
  }

  /** The handler reports, and send_frame is called with the reply to the command. */
  function DoAnswer(c: Cipher, d: Device, s: State, r: Outcome): State {
    if !InLoop(s) || |s.outcomes| >= |s.heard| then s else
    var line := d(s.heard[|s.outcomes|], r);
    s.(outcomes := s.outcomes + [r], server := Producers.Do(c, s.server, Producers.Call(0, line)))
  }

  function DoAsk(c: Cipher, s: State, command: bytes, fault: bool): State {
    var e := Encrypt(c, s.client, command, COMMAND_CAP);
    if s.waiting || fault || e.None? then s
    else
      s.(client := e.value.session, asked := s.asked + [command], waiting := true,
         server := s.server.(table := s.server.table[e.value.slot := command]))
  }

  /** Events are passed over; the first other line is the reply. */
  function DoGet(s: State, frame: bytes, fault: bool): State {
    var r := Decrypt(s.server.table, s.client, frame, REPLY_CAP);
    if !s.waiting || fault || r.None? then s
    else
      var line, t := r.value.plain, s.(client := r.value.session, read := s.read + [r.value.plain]);
      if IsEvent(line) then t else t.(returned := s.returned + [line], waiting := false)
  }

  function Do(c: Cipher, d: Device, s: State, step: Step): State {
    match step
    case Task(p) => DoTask(c, s, p)
    case Hear(frame, fault) => DoHear(s, frame, fault)
    case Answer(r) => DoAnswer(c, d, s, r)
    case Ask(command, fault) => DoAsk(c, s, command, fault)
    case Get(frame, fault) => DoGet(s, frame, fault)
  }

  function Run(c: Cipher, d: Device, s: State, steps: seq<Step>): State {
    if steps == [] then s else Do(c, d, Run(c, d, s, steps[..|steps| - 1]), steps[|steps| - 1])
  }

  /** Fewer than 2^64 frames each way. */
  predicate Short(s: State) {
    |s.server.lines| < TWO_64 - 1 && |s.asked| < TWO_64 - 1
  }

  /** The replies to the first commands heard. */
  function Due(d: Device, heard: seq<bytes>, outcomes: seq<Outcome>): (replies: seq<bytes>)
    requires |outcomes| <= |heard|
    ensures |replies| == |outcomes|
  {
    if outcomes == [] then [] else
    var n := |outcomes| - 1;
    Due(d, heard, outcomes[..n]) + [d(heard[n], outcomes[n])]
  }

  lemma {:induction false} DueAt(d: Device, heard: seq<bytes>, outcomes: seq<Outcome>, k: nat)
    requires k < |outcomes| <= |heard|
    ensures Due(d, heard, outcomes)[k] == d(heard[k], outcomes[k])
    decreases |outcomes|
  {
    var n := |outcomes| - 1;
    if k < n {
      DueAt(d, heard, outcomes[..n], k);
    }
  }

  lemma DueAppend(d: Device, heard: seq<bytes>, outcomes: seq<Outcome>, r: Outcome)
    requires |outcomes| < |heard|
    ensures Due(d, heard, outcomes + [r]) == Due(d, heard, outcomes) + [d(heard[|outcomes|], r)]
  {
    assert (outcomes + [r])[..|outcomes|] == outcomes;
  }

  lemma {:induction false} DueKeeps(d: Device, heard: seq<bytes>, outcomes: seq<Outcome>, more: bytes)
    requires |outcomes| <= |heard|
    ensures Due(d, heard + [more], outcomes) == Due(d, heard, outcomes)
    decreases |outcomes|
  {
    if outcomes != [] {
      DueKeeps(d, heard, outcomes[..|outcomes| - 1], more);
    }
  }

  /** The reply that task 0 has not sealed yet. */
  function Unsealed(s: Producers.System): seq<bytes> {
    if 0 < |s.pcs| && (s.pcs[0].Waiting? || s.pcs[0].Locked?) then [s.pcs[0].line] else []
  }

  /** Lines in hand are replies in task 0 and events elsewhere. */
  ghost predicate InHand(s: Producers.System) {
    forall t :: 0 <= t < |s.pcs| && (s.pcs[t].Waiting? || s.pcs[t].Locked?) ==> (t == 0 <==> !IsEvent(s.pcs[t].line))
  }

  /** The two directions of the channel: each side has accepted a prefix of what the
      other sealed. */
  ghost predicate Channel(key: bytes, s: State) {
    && s.client == NewSession(key, DIR_CLIENT, DIR_SERVER).(txSeq := |s.asked|, rxSeq := |s.read|)
    && s.server.session.key == key && s.server.session.established
    && s.server.session.rxDir == DIR_CLIENT && s.server.session.txDir == DIR_SERVER
    && s.server.session.rxSeq == |s.heard| && s.server.session.txSeq == |s.server.lines|
    && Faithful(s.server.table, key, DIR_SERVER, s.server.lines) && Faithful(s.server.table, key, DIR_CLIENT, s.asked)
    && s.read <= s.server.lines && s.heard <= s.asked
  }

  /** What has been sealed of the replies, then the one in hand; if the loop is over, a
      reply may have been lost. */
  ghost predicate Replied(server: Producers.System, up: bool, due: seq<bytes>) {
    && InHand(server)
    && var given := NonEvents(server.lines) + Unsealed(server);
       if up then given == due else given <= due
  }

  /** The client returns the lines that are not events, one for each command. */
  ghost predicate Client(s: State) {
    s.returned == NonEvents(s.read) && |s.asked| == |s.returned| + (if s.waiting then 1 else 0)
  }

  ghost predicate Invariant(c: Cipher, key: bytes, d: Device, s: State) {
    && Producers.Invariant(c, key, s.server) && Channel(key, s) && Client(s)
    && |s.outcomes| <= |s.heard| && Replied(s.server, s.up, Due(d, s.heard, s.outcomes))
  }

  lemma StartIsFine(c: Cipher, key: bytes, d: Device, tasks: nat)
    ensures Invariant(c, key, d, Start(key, tasks))
  {
    var s := Start(key, tasks);
    assert Due(d, s.heard, s.outcomes) == [] && NonEvents(s.server.lines) + Unsealed(s.server) == [];
  }

  lemma ServerReceives(c: Cipher, key: bytes, s: Producers.System, n: nat)
    requires Producers.Invariant(c, key, s)
    ensures Producers.Invariant(c, key, s.(session := s.session.(rxSeq := n)))
  {
  }

  lemma ClientSeals(c: Cipher, key: bytes, s: Producers.System, slot: Label, plain: bytes, j: nat)
    requires Producers.Invariant(c, key, s) && slot.nonce == Nonce(DIR_CLIENT, j) && j < TWO_64 && |s.lines| < TWO_64
    ensures Producers.Invariant(c, key, s.(table := s.table[slot := plain]))
  {
    forall i | 0 <= i < |s.frames|
      ensures Seals(c, key, DIR_SERVER, Producers.MAX_RESP, s.table[slot := plain], 0 + i, s.lines[i], s.frames[i])
    {
      assert Seals(c, key, DIR_SERVER, Producers.MAX_RESP, s.table, 0 + i, s.lines[i], s.frames[i]);
      NonceInjective(DIR_SERVER, i, DIR_CLIENT, j);
    }
  }

  lemma HearKeepsChannel(key: bytes, s: State, frame: bytes, fault: bool)
    requires Channel(key, s) && Short(s)
    ensures Channel(key, DoHear(s, frame, fault))
  {
    if Decrypt(s.server.table, s.server.session, frame, MAX_LINE).Some? {
      AcceptedIsNext(s.server.table, s.server.session, frame, MAX_LINE, s.asked, s.heard);
    }
  }

  lemma HearKeepsReplies(d: Device, s: State, frame: bytes, fault: bool)
    requires |s.outcomes| <= |s.heard| && Replied(s.server, s.up, Due(d, s.heard, s.outcomes))
    ensures var t := DoHear(s, frame, fault);
            |t.outcomes| <= |t.heard| && Replied(t.server, t.up, Due(d, t.heard, t.outcomes))
  {
    var r := Decrypt(s.server.table, s.server.session, frame, MAX_LINE);
    if r.Some? {
      DueKeeps(d, s.heard, s.outcomes, r.value.plain);
    }
  }

  lemma HearKeeps(c: Cipher, key: bytes, d: Device, s: State, frame: bytes, fault: bool)
    requires Invariant(c, key, d, s) && Short(s)
    ensures Invariant(c, key, d, DoHear(s, frame, fault))
  {
    HearKeepsChannel(key, s, frame, fault);
    HearKeepsReplies(d, s, frame, fault);
    var r := Decrypt(s.server.table, s.server.session, frame, MAX_LINE);
    if r.Some? {
      ServerReceives(c, key, s.server, r.value.session.rxSeq);
    }
  }

  lemma GetKeepsChannel(key: bytes, s: State, frame: bytes, fault: bool)
    requires Channel(key, s) && Short(s)
    ensures Channel(key, DoGet(s, frame, fault))
  {
    if Decrypt(s.server.table, s.client, frame, REPLY_CAP).Some? {
      AcceptedIsNext(s.server.table, s.client, frame, REPLY_CAP, s.server.lines, s.read);
    }
  }

  lemma GetKeepsClient(s: State, frame: bytes, fault: bool)
    requires Client(s)
    ensures Client(DoGet(s, frame, fault))
  {
    var r := Decrypt(s.server.table, s.client, frame, REPLY_CAP);
    if r.Some? {
      NonEventsAppend(s.read, r.value.plain);
      assert s.returned + [] == s.returned;
    }
  }

  lemma AskKeepsChannel(c: Cipher, key: bytes, s: State, command: bytes, fault: bool)
    requires Channel(key, s) && Short(s)
    ensures Channel(key, DoAsk(c, s, command, fault))
  {
    if Encrypt(c, s.client, command, COMMAND_CAP).Some? {
      SealIsFaithful(c, s.client, s.server.table, command, COMMAND_CAP, s.asked, DIR_SERVER, s.server.lines);
    }
  }

  lemma AskKeepsServer(c: Cipher, key: bytes, s: State, command: bytes, fault: bool)
    requires Producers.Invariant(c, key, s.server) && Channel(key, s) && Short(s)
    ensures Producers.Invariant(c, key, DoAsk(c, s, command, fault).server)
  {
    var e := Encrypt(c, s.client, command, COMMAND_CAP);
    if e.Some? {
      ClientSeals(c, key, s.server, e.value.slot, command, |s.asked|);
    }
  }

  lemma AskKeeps(c: Cipher, key: bytes, d: Device, s: State, command: bytes, fault: bool)
    requires Invariant(c, key, d, s) && Short(s)
    ensures Invariant(c, key, d, DoAsk(c, s, command, fault))
  {
    AskKeepsChannel(c, key, s, command, fault);
    AskKeepsServer(c, key, s, command, fault);
  }

  lemma AnswerKeeps(c: Cipher, key: bytes, d: Device, s: State, r: Outcome)
    requires Invariant(c, key, d, s) && Short(s)
    ensures Invariant(c, key, d, DoAnswer(c, d, s, r))
  {
    if InLoop(s) && |s.outcomes| < |s.heard| {
      var line := d(s.heard[|s.outcomes|], r);
      Producers.StepKeeps(c, key, s.server, Producers.Call(0, line));
      DueAppend(d, s.heard, s.outcomes, r);
      assert NonEvents(s.server.lines) + [] == NonEvents(s.server.lines);
    }
  }

  /** A step inside send_frame, but sealing, leaves session, lines and memory alone. */
  lemma QuietTask(c: Cipher, s: Producers.System, step: Producers.Step)
    requires !step.Seal?
    ensures var t := Producers.Do(c, s, step);
            t.session == s.session && t.lines == s.lines && t.table == s.table
    ensures var t := Producers.Do(c, s, step);
            InHand(s) && (step.Call? ==> step.task != 0 && IsEvent(step.line)) ==>
              InHand(t) && Unsealed(t) == Unsealed(s)
  {
  }

  lemma QuietTaskKeeps(c: Cipher, key: bytes, d: Device, s: State, step: Producers.Step)
    requires Invariant(c, key, d, s) && Short(s) && !step.Seal?
    ensures Invariant(c, key, d, DoTask(c, s, step))
  {
    Producers.StepKeeps(c, key, s.server, step);
    QuietTask(c, s.server, step);
  }

  lemma SealKeepsReplies(c: Cipher, s: Producers.System, up: bool, due: seq<bytes>, task: nat, fault: bool)
    requires Replied(s, up, due)
    ensures var t := Producers.Do(c, s, Producers.Seal(task, fault));
            Replied(t, up && (task != 0 || |t.lines| > |s.lines| || t == s), due)
  {
    if task < |s.pcs| && s.pcs[task].Locked? {
      NonEventsAppend(s.lines, s.pcs[task].line);
      assert NonEvents(s.lines) + [] == NonEvents(s.lines);
      assert NonEvents(s.lines) + [s.pcs[task].line] + [] == NonEvents(s.lines) + [s.pcs[task].line];
    }
  }

  lemma SealKeepsChannel(c: Cipher, key: bytes, s: State, task: nat, fault: bool)
    requires Channel(key, s) && Short(s)
    ensures Channel(key, DoTask(c, s, Producers.Seal(task, fault)))
  {
    if task < |s.server.pcs| && s.server.pcs[task].Locked? {
      var line := s.server.pcs[task].line;
      if Encrypt(c, s.server.session, line, |s.server.buffer|).Some? {
        SealIsFaithful(c, s.server.session, s.server.table, line, |s.server.buffer|, s.server.lines,
                       DIR_CLIENT, s.asked);
      }
    }
  }

  lemma SealKeeps(c: Cipher, key: bytes, d: Device, s: State, task: nat, fault: bool)
    requires Invariant(c, key, d, s) && Short(s)
    ensures Invariant(c, key, d, DoTask(c, s, Producers.Seal(task, fault)))
  {
    Producers.StepKeeps(c, key, s.server, Producers.Seal(task, fault));
    SealKeepsChannel(c, key, s, task, fault);
    SealKeepsReplies(c, s.server, s.up, Due(d, s.heard, s.outcomes), task, fault);
  }

  lemma StepKeeps(c: Cipher, key: bytes, d: Device, s: State, step: Step)
    requires Invariant(c, key, d, s) && Short(s)
    ensures Invariant(c, key, d, Do(c, d, s, step))
  {
    match step
    case Task(Seal(task, fault)) => SealKeeps(c, key, d, s, task, fault);
    case Task(p) => QuietTaskKeeps(c, key, d, s, p);
    case Hear(frame, fault) => HearKeeps(c, key, d, s, frame, fault);
    case Answer(r) => AnswerKeeps(c, key, d, s, r);
    case Ask(command, fault) => AskKeeps(c, key, d, s, command, fault);
    case Get(frame, fault) =>
      GetKeepsChannel(key, s, frame, fault);
      GetKeepsClient(s, frame, fault);
  }

  lemma OnlyGrows(c: Cipher, d: Device, s: State, step: Step)
    requires Short(Do(c, d, s, step))
    ensures Short(s)
  {
  }

  lemma {:induction false} RunKeeps(c: Cipher, key: bytes, d: Device, tasks: nat, steps: seq<Step>)
    requires Short(Run(c, d, Start(key, tasks), steps))
    ensures Invariant(c, key, d, Run(c, d, Start(key, tasks), steps))
    decreases |steps|
  {
    if steps == [] {
      StartIsFine(c, key, d, tasks);
    } else {
      var before := Run(c, d, Start(key, tasks), steps[..|steps| - 1]);
      OnlyGrows(c, d, before, steps[|steps| - 1]);
      RunKeeps(c, key, d, tasks, steps[..|steps| - 1]);
      StepKeeps(c, key, d, before, steps[|steps| - 1]);
    }
  }

  /** Reply matching, in every run, whatever the network does and the other tasks send:
      the `k`-th line that the client returns is what cmd_dispatch answered to its `k`-th
      command, and a further command is sent only when that reply is in. */
  lemma RepliesMatchCommands(c: Cipher, key: bytes, table: seq<Entry>, tasks: nat, steps: seq<Step>, k: nat)
    requires Short(Run(c, Firmware(table), Start(key, tasks), steps))
    requires k < |Run(c, Firmware(table), Start(key, tasks), steps).returned|
    ensures var s := Run(c, Firmware(table), Start(key, tasks), steps);
            && k < |s.asked| <= |s.returned| + 1 && k < |s.outcomes|
            && s.returned[k] == ReplyTo(table, s.asked[k], s.outcomes[k])
  {
    var d := Firmware(table);
    RunKeeps(c, key, d, tasks, steps);
    ReturnedIsDue(c, key, d, Run(c, d, Start(key, tasks), steps), k);
  }

  lemma ReturnedIsDue(c: Cipher, key: bytes, d: Device, s: State, k: nat)
    requires Invariant(c, key, d, s) && k < |s.returned|
    ensures k < |s.asked| && k < |s.outcomes| && s.returned[k] == d(s.asked[k], s.outcomes[k])
  {
    NonEventsPrefix(s.server.lines, |s.read|);
    assert s.read == s.server.lines[..|s.read|];
    assert s.returned <= NonEvents(s.server.lines) <= Due(d, s.heard, s.outcomes);
    DueAt(d, s.heard, s.outcomes, k);
  }
}
