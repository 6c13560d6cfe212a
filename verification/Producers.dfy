/** Any number of firmware tasks calling send_frame at once (components/core/src/net.c):
    the command handler, the log pump and every event source. They share one
    static buffer and one session, guarded by a mutex. */
module Producers {
  import opened Bytes
  import opened Framing
  import opened Wire

  const MAX_RESP := 4096
  const BUFFER_LEN := HEADER_LEN + MAX_RESP + TAG_LEN

  /** Where a task stands inside send_frame. */
  datatype Pc =
    | Idle
    | Waiting(line: bytes)
    | Locked(line: bytes)
    | Writing(frameLen: nat, sent: nat)
  {
    predicate Inside() {
      Locked? || Writing?
    }
  }

  /** `lines` and `frames` record what has been sealed; `out` is the socket. */
  datatype System = System(
    pcs: seq<Pc>,
    owner: Option<nat>,
    session: Session,
    buffer: bytes,
    out: bytes,
    table: Table,
    lines: seq<bytes>,
    frames: seq<bytes>)

  datatype Step =
    | Call(task: nat, line: bytes)
    | Take(task: nat)
    | Seal(task: nat, fault: bool)
    | Write(task: nat, n: nat)
    | Give(task: nat)

  function Start(key: bytes, tasks: nat): System {
    System(seq(tasks, _ => Idle), None, NewSession(key, DIR_SERVER, DIR_CLIENT), Zeros(BUFFER_LEN), [], map[], [], [])
  }

  /** One atomic action of one task. What guards it is the task's own position;
      only taking the mutex looks at the mutex. */
  function Do(c: Cipher, s: System, step: Step): System {
    if step.task >= |s.pcs| then s else
    var t, pc := step.task, s.pcs[step.task];
    match step
    case Call(_, line) =>
      if pc.Idle? && |line| <= MAX_RESP then s.(pcs := s.pcs[t := Waiting(line)]) else s
    case Take(_) =>
      if pc.Waiting? && s.owner.None? then s.(pcs := s.pcs[t := Locked(pc.line)], owner := Some(t)) else s
    case Seal(_, fault) =>
      if !pc.Locked? then s else
      var e := Encrypt(c, s.session, pc.line, |s.buffer|);
      if fault || e.None? then
        s.(pcs := s.pcs[t := Idle], owner := None)
      else
        s.(pcs := s.pcs[t := Writing(|e.value.frame|, 0)], session := e.value.session,
           buffer := e.value.frame + s.buffer[Min(|e.value.frame|, |s.buffer|)..],
           table := s.table[e.value.slot := pc.line],
           lines := s.lines + [pc.line], frames := s.frames + [e.value.frame])
    case Write(_, n) =>
      if pc.Writing? && 0 < n && pc.sent + n <= pc.frameLen <= |s.buffer| then
        s.(pcs := s.pcs[t := pc.(sent := pc.sent + n)], out := s.out + s.buffer[pc.sent..pc.sent + n])
      else
        s
    case Give(_) =>
      if pc.Writing? && pc.sent == pc.frameLen then s.(pcs := s.pcs[t := Idle], owner := None) else s
  }

  function Run(c: Cipher, s: System, steps: seq<Step>): System {
    if steps == [] then s else Do(c, Run(c, s, steps[..|steps| - 1]), steps[|steps| - 1])
  }

  /** Exactly the owner of the mutex is inside the critical section. */
  ghost predicate Exclusive(s: System) {
    && (s.owner.Some? ==> s.owner.value < |s.pcs|)
    && forall t :: 0 <= t < |s.pcs| ==> (s.pcs[t].Inside() <==> s.owner == Some(t))
  }

  ghost predicate Numbered(c: Cipher, key: bytes, s: System) {
    && s.session == NewSession(key, DIR_SERVER, DIR_CLIENT).(txSeq := |s.frames|, rxSeq := s.session.rxSeq)
    && SealsAll(c, key, DIR_SERVER, MAX_RESP, s.table, 0, s.lines, s.frames)
  }

  /** How much of the newest frame the socket still lacks. */
  ghost predicate Emitted(s: System) {
    if s.owner.Some? && s.owner.value < |s.pcs| && s.pcs[s.owner.value].Writing? then
      var pc := s.pcs[s.owner.value];
      && s.frames != []
      && pc.sent <= pc.frameLen == |s.frames[|s.frames| - 1]| <= |s.buffer|
      && s.buffer[..pc.frameLen] == s.frames[|s.frames| - 1]
      && s.out == Flatten(s.frames[..|s.frames| - 1]) + s.buffer[..pc.sent]
    else
      s.out == Flatten(s.frames)
  }

  ghost predicate LinesFit(s: System) {
    forall t :: 0 <= t < |s.pcs| && (s.pcs[t].Waiting? || s.pcs[t].Locked?) ==> |s.pcs[t].line| <= MAX_RESP
  }

  ghost predicate Invariant(c: Cipher, key: bytes, s: System) {
    Exclusive(s) && LinesFit(s) && Numbered(c, key, s) && Emitted(s) && |s.buffer| == BUFFER_LEN
  }

  lemma SealKeepsNumbered(c: Cipher, key: bytes, s: System, task: nat)
    requires Numbered(c, key, s) && |s.buffer| == BUFFER_LEN && |s.frames| < TWO_64 - 1
    requires task < |s.pcs| && s.pcs[task].Locked? && |s.pcs[task].line| <= MAX_RESP
    ensures Numbered(c, key, Do(c, s, Seal(task, false)))
  {
    SealsAllAppend(c, key, DIR_SERVER, MAX_RESP, s.table, 0, s.lines, s.frames, s.pcs[task].line);
  }

  lemma SealKeepsEmitted(c: Cipher, key: bytes, s: System, task: nat)
    requires Invariant(c, key, s) && task < |s.pcs| && s.pcs[task].Locked?
    ensures var s' := Do(c, s, Seal(task, false)); Emitted(s') && |s'.buffer| == BUFFER_LEN
  {
    var s' := Do(c, s, Seal(task, false));
    assert s.owner == Some(task);
    assert s'.frames[..|s'.frames| - 1] == s.frames;
    assert s'.buffer[..|s'.frames[|s.frames|]|] == s'.frames[|s.frames|];
    assert s'.buffer[..0] == [];
  }

  lemma WriteKeepsEmitted(c: Cipher, key: bytes, s: System, task: nat, n: nat)
    requires Invariant(c, key, s)
    ensures Emitted(Do(c, s, Write(task, n)))
  {
    if task < |s.pcs| && s.pcs[task].Writing? && 0 < n && s.pcs[task].sent + n <= s.pcs[task].frameLen {
      assert s.owner == Some(task);
      var sent := s.pcs[task].sent;
      assert s.buffer[..sent + n] == s.buffer[..sent] + s.buffer[sent..sent + n];
      Regroup(Flatten(s.frames[..|s.frames| - 1]), s.buffer[..sent], s.buffer[sent..sent + n]);
    }
  }

  lemma GiveKeepsEmitted(c: Cipher, key: bytes, s: System, task: nat)
    requires Invariant(c, key, s)
    ensures Emitted(Do(c, s, Give(task)))
  {
    if task < |s.pcs| && s.pcs[task].Writing? && s.pcs[task].sent == s.pcs[task].frameLen {
      assert s.owner == Some(task);
      var n := |s.frames| - 1;
      FlattenAppend(s.frames[..n], s.frames[n]);
      assert s.frames == s.frames[..n] + [s.frames[n]];
    }
  }

  lemma SealKeeps(c: Cipher, key: bytes, s: System, task: nat, fault: bool)
    requires Invariant(c, key, s) && |Do(c, s, Seal(task, fault)).frames| < TWO_64
    ensures Invariant(c, key, Do(c, s, Seal(task, fault)))
  {
    SealKeepsLock(c, s, task, fault);
    if task < |s.pcs| && s.pcs[task].Locked? {
      assert s.owner == Some(task);
      if !fault {
        SealKeepsNumbered(c, key, s, task);
        SealKeepsEmitted(c, key, s, task);
      }
    }
  }

  lemma SealKeepsLock(c: Cipher, s: System, task: nat, fault: bool)
    requires Exclusive(s) && LinesFit(s)
    ensures var s' := Do(c, s, Seal(task, fault)); Exclusive(s') && LinesFit(s')
  {
  }

  lemma LockKeeps(c: Cipher, key: bytes, s: System, step: Step)
    requires Invariant(c, key, s) && (step.Call? || step.Take?)
    ensures Invariant(c, key, Do(c, s, step))
  {
    if step.task < |s.pcs| {
      assert s.owner == Some(step.task) <==> s.pcs[step.task].Inside();
    }
  }

  lemma StepKeeps(c: Cipher, key: bytes, s: System, step: Step)
    requires Invariant(c, key, s) && |Do(c, s, step).frames| < TWO_64
    ensures Invariant(c, key, Do(c, s, step))
  {
    match step
    case Call(_, _) => LockKeeps(c, key, s, step);
    case Take(_) => LockKeeps(c, key, s, step);
    case Seal(task, fault) => SealKeeps(c, key, s, task, fault);
    case Write(task, n) => WriteKeepsEmitted(c, key, s, task, n);
    case Give(task) => GiveKeepsEmitted(c, key, s, task);
  }

  lemma FramesOnlyGrow(c: Cipher, s: System, step: Step)
    ensures |s.frames| <= |Do(c, s, step).frames|
  {
  }

  lemma {:induction false} RunKeeps(c: Cipher, key: bytes, tasks: nat, steps: seq<Step>)
    requires |Run(c, Start(key, tasks), steps).frames| < TWO_64
    ensures Invariant(c, key, Run(c, Start(key, tasks), steps))
    decreases |steps|
  {
    if steps != [] {
      var before := Run(c, Start(key, tasks), steps[..|steps| - 1]);
      FramesOnlyGrow(c, before, steps[|steps| - 1]);
      RunKeeps(c, key, tasks, steps[..|steps| - 1]);
      StepKeeps(c, key, before, steps[|steps| - 1]);
    }
  }

  /** The number of frames that are on the socket completely. */
  function Whole(s: System): nat {
    if s.owner.Some? && s.owner.value < |s.pcs| && s.frames != [] then
      var pc := s.pcs[s.owner.value];
      if pc.Writing? && pc.sent < pc.frameLen then |s.frames| - 1 else |s.frames|
    else
      |s.frames|
  }

  /** The bytes of the frame behind the whole ones that are already out. */
  function Partial(s: System): bytes {
    if Whole(s) < |s.frames| && s.pcs[s.owner.value].sent <= |s.frames[Whole(s)]| then
      s.frames[Whole(s)][..s.pcs[s.owner.value].sent]
    else
      []
  }

  lemma OutputShape(c: Cipher, key: bytes, s: System)
    requires Invariant(c, key, s)
    ensures s.out == Flatten(s.frames[..Whole(s)]) + Partial(s)
    ensures Whole(s) < |s.frames| ==> |Partial(s)| < |s.frames[Whole(s)]|
  {
    var n := |s.frames|;
    assert s.frames[..n] == s.frames;
    if s.owner.Some? && s.pcs[s.owner.value].Writing? {
      var last := s.frames[n - 1];
      if Whole(s) == n {
        FlattenAppend(s.frames[..n - 1], last);
        assert s.frames == s.frames[..n - 1] + [last];
      } else {
        assert s.buffer[..s.pcs[s.owner.value].sent] == last[..s.pcs[s.owner.value].sent];
      }
    }
  }

  /** However the tasks interleave, the socket holds whole frames in counter order
      and then at most a proper part of the next one. */
  lemma SocketHoldsWholeFrames(c: Cipher, key: bytes, tasks: nat, steps: seq<Step>)
    requires |Run(c, Start(key, tasks), steps).frames| < TWO_64
    ensures var s := Run(c, Start(key, tasks), steps);
            && SealsAll(c, key, DIR_SERVER, MAX_RESP, s.table, 0, s.lines, s.frames)
            && s.out == Flatten(s.frames[..Whole(s)]) + Partial(s)
            && |s.frames| - 1 <= Whole(s) <= |s.frames|
            && (Whole(s) < |s.frames| ==> Partial(s) < s.frames[Whole(s)])
            && (Whole(s) == |s.frames| ==> Partial(s) == [])
  {
    RunKeeps(c, key, tasks, steps);
    OutputShape(c, key, Run(c, Start(key, tasks), steps));
  }

  lemma PartialIsNoFrame(s: System)
    requires Whole(s) <= |s.frames| && AllFrames(s.frames, BUFFER_LEN)
    requires Whole(s) < |s.frames| ==> |Partial(s)| < |s.frames[Whole(s)]|
    ensures Deframe(Partial(s), BUFFER_LEN) == []
  {
    if Whole(s) < |s.frames| {
      PartialFrameIsNone(s.frames[Whole(s)], |Partial(s)|, BUFFER_LEN);
    }
  }

  /** End to end: a client that cuts the socket's bytes into frames and opens them
      reads exactly the lines whose frames are complete, in the order sealed. */
  lemma ClientReadsWholeLines(c: Cipher, key: bytes, tasks: nat, steps: seq<Step>, cap: nat)
    requires |Run(c, Start(key, tasks), steps).frames| < TWO_64 && MAX_RESP <= cap
    ensures var s := Run(c, Start(key, tasks), steps);
            && Whole(s) <= |s.lines|
            && ReceiveAll(s.table, NewSession(key, DIR_CLIENT, DIR_SERVER), Deframe(s.out, BUFFER_LEN), cap)
               == s.lines[..Whole(s)]
  {
    var s := Run(c, Start(key, tasks), steps);
    SocketHoldsWholeFrames(c, key, tasks, steps);
    var k := Whole(s);
    SealedAreFrames(c, key, DIR_SERVER, MAX_RESP, s.table, s.lines, s.frames);
    PartialIsNoFrame(s);
    DeframeInverts(s.frames[..k], Partial(s), BUFFER_LEN);
    assert s.frames[..k] + [] == s.frames[..k];
    ReceiveInOrder(c, key, DIR_SERVER, DIR_CLIENT, MAX_RESP, s.table, 0, s.lines[..k], s.frames[..k], cap);
  }
}
