/** That the secure channel carries anything: every exchange of messages has a run. */
module Conversation {
  import opened Bytes
  import opened SecureChannel
  import opened Wire

  datatype Message = Message(fromServer: bool, text: bytes)

  /** Both sides have read everything. */
  ghost predicate InSync(key: bytes, w: World) {
    && w.server.got == w.client.sent && w.client.got == w.server.sent
    && w.server.session == NewSession(key, DIR_SERVER, DIR_CLIENT).(txSeq := |w.server.sent|, rxSeq := |w.client.sent|)
    && w.client.session == NewSession(key, DIR_CLIENT, DIR_SERVER).(txSeq := |w.client.sent|, rxSeq := |w.server.sent|)
  }

  /** The messages of one side. */
  function Said(messages: seq<Message>, fromServer: bool): (texts: seq<bytes>)
    ensures |texts| <= |messages|
  {
    if messages == [] then [] else
    var n := |messages| - 1;
    var before := Said(messages[..n], fromServer);
    if messages[n].fromServer == fromServer then before + [messages[n].text] else before
  }

  lemma OneMessage(c: Cipher, key: bytes, w: World, m: Message) returns (send: Step, deliver: Step)
    requires InSync(key, w) && |m.text| <= 65507 && |w.server.sent| < TWO_64 - 1 && |w.client.sent| < TWO_64 - 1
    ensures var after := Do(c, Do(c, w, send), deliver);
            && InSync(key, after)
            && after.server.sent == w.server.sent + (if m.fromServer then [m.text] else [])
            && after.client.sent == w.client.sent + (if m.fromServer then [] else [m.text])
  {
    var tx, rx := if m.fromServer then w.server.session else w.client.session,
                  if m.fromServer then w.client.session else w.server.session;
    var e := Encrypt(c, tx, m.text, 65535).value;
    SealOpenRoundTrip(c, w.table, tx, rx, m.text, 65535, 65507);
    send, deliver := Send(m.fromServer, m.text, 65535, false), Deliver(!m.fromServer, e.frame, 65507, false);
    DeliversIt(c, key, w, m, e);
  }

  lemma DeliversIt(c: Cipher, key: bytes, w: World, m: Message, e: Sealed)
    requires InSync(key, w) && |w.server.sent| < TWO_64 - 1 && |w.client.sent| < TWO_64 - 1
    requires var tx, rx := if m.fromServer then w.server.session else w.client.session,
                           if m.fromServer then w.client.session else w.server.session;
             && Encrypt(c, tx, m.text, 65535) == Some(e) && e.session == tx.(txSeq := tx.txSeq + 1)
             && Decrypt(w.table[e.slot := m.text], rx, e.frame, 65507)
                == Some(Opened(rx.(rxSeq := rx.rxSeq + 1), m.text))
    ensures var after := Do(c, Do(c, w, Send(m.fromServer, m.text, 65535, false)),
                            Deliver(!m.fromServer, e.frame, 65507, false));
            && InSync(key, after)
            && after.server.sent == w.server.sent + (if m.fromServer then [m.text] else [])
            && after.client.sent == w.client.sent + (if m.fromServer then [] else [m.text])
  {
    hide Encrypt, Decrypt;
    var w1 := Do(c, w, Send(m.fromServer, m.text, 65535, false));
    assert w1.table == w.table[e.slot := m.text];
  }

  lemma TwoMore(c: Cipher, w: World, steps: seq<Step>, a: Step, b: Step)
    ensures Run(c, w, steps + [a, b]) == Do(c, Do(c, Run(c, w, steps), a), b)
  {
    var all := steps + [a, b];
    assert all[..|all| - 1] == steps + [a] && (steps + [a])[..|steps|] == steps;
    assert Run(c, w, steps + [a]) == Do(c, Run(c, w, steps), a);
  }

  /** Any messages, in any order, can be sent and are read on the other side. */
  lemma {:induction false} AllIsRead(c: Cipher, key: bytes, messages: seq<Message>) returns (steps: seq<Step>)
    requires |messages| < TWO_64 - 1 && forall k :: 0 <= k < |messages| ==> |messages[k].text| <= 65507
    ensures var w := Run(c, Start(key), steps);
            && InSync(key, w)
            && w.client.got == w.server.sent == Said(messages, true)
            && w.server.got == w.client.sent == Said(messages, false)
    decreases |messages|
  {
    steps := [];
    if messages != [] {
      var n := |messages| - 1;
      var before := AllIsRead(c, key, messages[..n]);
      var send, deliver := OneMessage(c, key, Run(c, Start(key), before), messages[n]);
      steps := before + [send, deliver];
      TwoMore(c, Start(key), before, send, deliver);
    }
  }
}
