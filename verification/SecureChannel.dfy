/** Both ends of one session over a network that may deliver anything at all:
    frames dropped, repeated, reordered, reflected, spliced or made up. */
module SecureChannel {
  import opened Bytes
  import opened Wire

  /** Everything that evolves during a run. `sent` and `got` are the plaintexts a
      side has successfully encrypted and accepted, oldest first; `slots` are its
      sealings, whose associated data and body make up the frames on the wire. */
  datatype End = End(session: Session, sent: seq<bytes>, slots: seq<Label>, got: seq<bytes>)

  datatype World = World(server: End, client: End, table: Table)

  /** A step names its actor (the server, or else the client) and everything the
      environment chooses, including whether a library call fails. */
  datatype Step =
    | Send(byServer: bool, plain: bytes, cap: nat, fault: bool)
    | Deliver(toServer: bool, frame: bytes, cap: nat, fault: bool)
    | Foreign(slot: Label, plain: bytes)

  function Start(key: bytes): World {
    World(End(NewSession(key, DIR_SERVER, DIR_CLIENT), [], [], []),
          End(NewSession(key, DIR_CLIENT, DIR_SERVER), [], [], []), map[])
  }

  function SendBy(c: Cipher, e: End, t: Table, plain: bytes, cap: nat, fault: bool): (End, Table) {
    var r := Encrypt(c, e.session, plain, cap);
    if fault || r.None? then
      (e, t)
    else
      (e.(session := r.value.session, sent := e.sent + [plain], slots := e.slots + [r.value.slot]),
       t[r.value.slot := plain])
  }

  function DeliverTo(e: End, t: Table, frame: bytes, cap: nat, fault: bool): End {
    var r := Decrypt(t, e.session, frame, cap);
    if fault || r.None? then
      e
    else
      e.(session := r.value.session, got := e.got + [r.value.plain])
  }

  function Do(c: Cipher, w: World, step: Step): World {
    match step
    case Send(byServer, plain, cap, fault) =>
      if byServer then
        var (e, t) := SendBy(c, w.server, w.table, plain, cap, fault);
        w.(server := e, table := t)
      else
        var (e, t) := SendBy(c, w.client, w.table, plain, cap, fault);
        w.(client := e, table := t)
    case Deliver(toServer, frame, cap, fault) =>
      if toServer then
        w.(server := DeliverTo(w.server, w.table, frame, cap, fault))
      else
        w.(client := DeliverTo(w.client, w.table, frame, cap, fault))
    case Foreign(slot, plain) =>
      // someone seals under a key that is not this session's
      if slot.key == w.server.session.key then w else w.(table := w.table[slot := plain])
  }

  function Run(c: Cipher, w: World, steps: seq<Step>): World {
    if steps == [] then w else Do(c, Run(c, w, steps[..|steps| - 1]), steps[|steps| - 1])
  }

  /** All the AEAD remembers under the key and nonces of one direction is what its
      sender sealed: the `i`-th plaintext under the `i`-th nonce, nothing else. */
  ghost predicate Faithful(t: Table, key: bytes, dir: byte, sent: seq<bytes>) {
    forall l, i: nat :: l in t && l.key == key && i < TWO_64 && l.nonce == Nonce(dir, i) ==>
                          i < |sent| && t[l] == sent[i]
  }

  /** A receiver at counter `i` would take `l`'s frame as far as the AEAD. */
  ghost predicate Numbered(l: Label, i: nat, plain: bytes) {
    && |l.aad| == HEADER_LEN && |l.body| == |plain| + TAG_LEN
    && forall s: Session, cap: nat :: s.established && s.rxSeq == i && |plain| <= cap ==> WellFormed(s, FrameOf(l), cap)
  }

  /** The `i`-th sealing of a side has the `i`-th nonce and is remembered. */
  ghost predicate Recorded(t: Table, key: bytes, dir: byte, slots: seq<Label>, sent: seq<bytes>) {
    && |slots| == |sent|
    && forall i :: 0 <= i < |slots| ==>
                     && slots[i] in t && slots[i].key == key && slots[i].nonce == Nonce(dir, i)
                     && Numbered(slots[i], i, sent[i])
  }

  /** One direction of the session is in order. */
  ghost predicate InStep(tx: End, rx: End, t: Table) {
    && tx.session.established && rx.session.established
    && tx.session.key == rx.session.key
    && tx.session.txDir == rx.session.rxDir
    && tx.session.txSeq == |tx.sent|
    && rx.session.rxSeq == |rx.got|
    && rx.got <= tx.sent
    && Faithful(t, tx.session.key, tx.session.txDir, tx.sent)
    && Recorded(t, tx.session.key, tx.session.txDir, tx.slots, tx.sent)
  }

  ghost predicate Invariant(w: World) {
    && InStep(w.server, w.client, w.table)
    && InStep(w.client, w.server, w.table)
    && w.server.session.txDir != w.client.session.txDir
  }

  /** Fewer than 2^64 frames each way. */
  predicate Short(w: World) {
    |w.server.sent| < TWO_64 && |w.client.sent| < TWO_64
  }

  lemma SealedIsNumbered(c: Cipher, s: Session, plain: bytes, cap: nat)
    requires Encrypt(c, s, plain, cap).Some? && s.txSeq < TWO_64
    ensures Numbered(Encrypt(c, s, plain, cap).value.slot, s.txSeq, plain)
  {
    var l := Encrypt(c, s, plain, cap).value.slot;
    HeaderFields(|FrameOf(l)|, s.txSeq, l.body);
  }

  /** Sealing the next plaintext of a direction is remembered as such, and what is
      remembered of the other direction stays. */
  lemma SealIsFaithful(
    c: Cipher, s: Session, t: Table, plain: bytes, cap: nat, sent: seq<bytes>, other: byte, theirs: seq<bytes>)
    requires Encrypt(c, s, plain, cap).Some? && s.txSeq == |sent| < TWO_64 && s.txDir != other
    requires Faithful(t, s.key, s.txDir, sent) && Faithful(t, s.key, other, theirs)
    ensures var u := t[Encrypt(c, s, plain, cap).value.slot := plain];
            Faithful(u, s.key, s.txDir, sent + [plain]) && Faithful(u, s.key, other, theirs)
  {
    var u := t[Encrypt(c, s, plain, cap).value.slot := plain];
    forall l, i: nat | l in u && l.key == s.key && i < TWO_64
      ensures l.nonce == Nonce(s.txDir, i) ==> i < |sent + [plain]| && u[l] == (sent + [plain])[i]
    {
      NonceInjective(s.txDir, s.txSeq, s.txDir, i);
    }
    forall l, i: nat | l in u && l.key == s.key && i < TWO_64
      ensures l.nonce == Nonce(other, i) ==> i < |theirs| && u[l] == theirs[i]
    {
      NonceInjective(s.txDir, s.txSeq, other, i);
    }
  }

  /** What a receiver accepts is the next plaintext that its peer sealed. */
  lemma AcceptedIsNext(t: Table, s: Session, frame: bytes, cap: nat, sent: seq<bytes>, got: seq<bytes>)
    requires Decrypt(t, s, frame, cap).Some? && s.rxSeq == |got| < TWO_64 - 1 && got <= sent
    requires Faithful(t, s.key, s.rxDir, sent)
    ensures var r := Decrypt(t, s, frame, cap).value;
            |got| < |sent| && r.plain == sent[|got|] && r.session == s.(rxSeq := |got| + 1)
  {
    var l := LabelOf(s, frame);
    assert l.nonce == Nonce(s.rxDir, |got|);
  }

  lemma SendKeeps(c: Cipher, tx: End, rx: End, t: Table, plain: bytes, cap: nat, fault: bool)
    requires InStep(tx, rx, t) && InStep(rx, tx, t) && tx.session.txDir != rx.session.txDir
    requires var (e, _) := SendBy(c, tx, t, plain, cap, fault); |e.sent| < TWO_64
    requires |rx.sent| < TWO_64
    ensures var (e, u) := SendBy(c, tx, t, plain, cap, fault); InStep(e, rx, u) && InStep(rx, e, u)
    ensures var (e, u) := SendBy(c, tx, t, plain, cap, fault); e.session.txDir == tx.session.txDir
  {
    if Encrypt(c, tx.session, plain, cap).Some? {
      SealedIsNumbered(c, tx.session, plain, cap);
      SealIsFaithful(c, tx.session, t, plain, cap, tx.sent, rx.session.txDir, rx.sent);
    }
  }

  lemma DeliverKeeps(tx: End, rx: End, t: Table, frame: bytes, cap: nat, fault: bool)
    requires InStep(tx, rx, t) && InStep(rx, tx, t) && |tx.sent| < TWO_64
    ensures var e := DeliverTo(rx, t, frame, cap, fault); InStep(tx, e, t) && InStep(e, tx, t)
  {
    if Decrypt(t, rx.session, frame, cap).Some? && |rx.got| < TWO_64 - 1 {
      AcceptedIsNext(t, rx.session, frame, cap, tx.sent, rx.got);
    }
  }

  lemma StepKeeps(c: Cipher, w: World, step: Step)
    requires Invariant(w) && Short(Do(c, w, step))
    ensures Invariant(Do(c, w, step))
  {
    match step
    case Send(true, plain, cap, fault) => SendKeeps(c, w.server, w.client, w.table, plain, cap, fault);
    case Send(false, plain, cap, fault) => SendKeeps(c, w.client, w.server, w.table, plain, cap, fault);
    case Deliver(true, frame, cap, fault) => DeliverKeeps(w.client, w.server, w.table, frame, cap, fault);
    case Deliver(false, frame, cap, fault) => DeliverKeeps(w.server, w.client, w.table, frame, cap, fault);
    case Foreign(_, _) =>
  }

  lemma {:induction false} RunKeeps(c: Cipher, key: bytes, steps: seq<Step>)
    requires Short(Run(c, Start(key), steps))
    ensures Invariant(Run(c, Start(key), steps))
    decreases |steps|
  {
    if steps != [] {
      RunKeeps(c, key, steps[..|steps| - 1]);
      StepKeeps(c, Run(c, Start(key), steps[..|steps| - 1]), steps[|steps| - 1]);
    }
  }

  /** Safety over whole runs: whatever the network does, each side has accepted a
      prefix of what its peer encrypted, in order and without repetition. */
  lemma DeliveredIsPrefixOfSent(c: Cipher, key: bytes, steps: seq<Step>)
    requires Short(Run(c, Start(key), steps))
    ensures var w := Run(c, Start(key), steps);
            w.client.got <= w.server.sent && w.server.got <= w.client.sent
  {
    RunKeeps(c, key, steps);
  }

  /** Progress: in every run, when the network does deliver the oldest frame that
      is still outstanding, it is accepted and yields the plaintext sent. */
  lemma OldestOutstandingIsAccepted(c: Cipher, key: bytes, steps: seq<Step>, toServer: bool, cap: nat)
    requires Short(Run(c, Start(key), steps))
    requires var w := Run(c, Start(key), steps);
             var (tx, rx) := if toServer then (w.client, w.server) else (w.server, w.client);
             |rx.got| < |tx.sent| && |tx.sent[|rx.got|]| <= cap
    ensures var w := Run(c, Start(key), steps);
            var (tx, rx) := if toServer then (w.client, w.server) else (w.server, w.client);
            && |rx.got| < |tx.slots|
            && DeliverTo(rx, w.table, FrameOf(tx.slots[|rx.got|]), cap, false).got == rx.got + [tx.sent[|rx.got|]]
  {
    RunKeeps(c, key, steps);
    var w := Run(c, Start(key), steps);
    var (tx, rx) := if toServer then (w.client, w.server) else (w.server, w.client);
    var l := tx.slots[|rx.got|];
    assert Numbered(l, |rx.got|, tx.sent[|rx.got|]);
    assert LabelOf(rx.session, FrameOf(l)) == l;
  }

  /** Nonces: over a whole run no two sealings of the session share one. */
  lemma NoncesAreNeverReused(c: Cipher, key: bytes, steps: seq<Step>, i: nat, j: nat)
    requires Short(Run(c, Start(key), steps))
    requires var w := Run(c, Start(key), steps);
             i < |w.server.slots + w.client.slots| && j < |w.server.slots + w.client.slots|
    ensures var w := Run(c, Start(key), steps);
            var slots := w.server.slots + w.client.slots;
            slots[i].nonce == slots[j].nonce ==> i == j
  {
    RunKeeps(c, key, steps);
    var w := Run(c, Start(key), steps);
    SlotNonce(w, i);
    SlotNonce(w, j);
    NonceInjective(Sender(w, i), Index(w, i), Sender(w, j), Index(w, j));
  }

  /** The direction byte and the counter of the `i`-th sealing of both sides. */
  function Sender(w: World, i: nat): byte {
    if i < |w.server.slots| then w.server.session.txDir else w.client.session.txDir
  }

  function Index(w: World, i: nat): nat {
    if i < |w.server.slots| then i else i - |w.server.slots|
  }

  lemma SlotNonce(w: World, i: nat)
    requires Invariant(w) && Short(w) && i < |w.server.slots + w.client.slots|
    ensures (w.server.slots + w.client.slots)[i].nonce == Nonce(Sender(w, i), Index(w, i)) && Index(w, i) < TWO_64
  {
  }
}
