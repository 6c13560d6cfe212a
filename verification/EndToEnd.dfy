/** The two ends of a connection put together, each by what its own loop promises. */
module EndToEnd {
  import opened Bytes
  import Client
  import opened Dispatch
  import opened Events
  import opened Framing
  import opened Ota
  import opened Turns
  import opened Wire

  /** The start of a frame that got lost is no frame. */
  lemma CutIsNoFrame(frames: seq<bytes>, cut: bytes, f: bytes, part: bytes, cap: nat) returns (n: nat)
    requires AllFrames(frames, cap) && IsFrame(f, cap) && cut < f && part <= Flatten(frames) + cut
    ensures n <= |frames| && Deframe(part, cap) == frames[..n]
  {
    hide Deframe, Flatten;
    var all := frames + [f];
    FlattenAppend(frames, f);
    n := PartOfFrames(all, part, cap);
    assert all[..|all|] == all;
    assert all[..n] == frames[..n];
  }

  /** Whatever part of the client's stream has arrived, the device has received the first
      of the commands asked. */
  lemma UpIsRead(
    c: Cipher, key: bytes, t: Table, asked: seq<bytes>, frames: seq<bytes>, cut: bytes, up: bytes)
    requires SealsAll(c, key, DIR_CLIENT, MAX_LINE, t, 0, asked, frames) && Client.IsCut(cut)
    requires |asked| < TWO_64 && up <= Flatten(frames) + cut
    ensures ReceiveAll(t, NewSession(key, DIR_SERVER, DIR_CLIENT), Deframe(up, FRAME_CAP), MAX_LINE) <= asked
  {
    if cut == [] {
      PartIsRead(c, key, DIR_CLIENT, DIR_SERVER, MAX_LINE, t, asked, frames, up, MAX_LINE);
    } else {
      var f :| IsFrame(f, FRAME_CAP) && cut < f;
      SealedAreFrames(c, key, DIR_CLIENT, MAX_LINE, t, asked, frames);
      var n := CutIsNoFrame(frames, cut, f, up, FRAME_CAP);
      FirstAreRead(c, key, DIR_CLIENT, DIR_SERVER, MAX_LINE, t, asked, frames, n, MAX_LINE);
    }
  }

  /** Whatever part of the device's stream has arrived, the client takes the first of the
      replies for replies. */
  lemma DownIsRead(
    c: Cipher, key: bytes, t: Table, next: nat, log: Log, turns: seq<Turn>, missing: nat, down: bytes,
    replies: seq<bytes>)
    requires Sealing(c, key, next, t, log) && |log.lines| < TWO_64 && Answered(log.lines, turns, missing)
    requires down <= Flatten(log.frames)
    requires replies <= NonEvents(Client.Incoming(t, NewSession(key, DIR_CLIENT, DIR_SERVER), down))
    ensures replies <= Replies(turns)
  {
    var read := Client.Incoming(t, NewSession(key, DIR_CLIENT, DIR_SERVER), down);
    PartIsRead(c, key, DIR_SERVER, DIR_CLIENT, MAX_RESP, t, log.lines, log.frames, down, Client.REPLY_CAP - 1);
    ReadReplies(log.lines, turns, missing, read, replies);
  }

  lemma ReadReplies(lines: seq<bytes>, turns: seq<Turn>, missing: nat, read: seq<bytes>, replies: seq<bytes>)
    requires Answered(lines, turns, missing) && read <= lines && replies <= NonEvents(read)
    ensures replies <= Replies(turns)
  {
    NonEventsPrefix(lines, |read|);
    assert read == lines[..|read|];
  }

  lemma AnswersInOrder(
    table: seq<Entry>, digest: Digest, turns: seq<Turn>, first: View, last: View, asked: seq<bytes>,
    replies: seq<bytes>)
    requires History(table, digest, turns, first, last) && Lines(turns) <= asked && replies <= Replies(turns)
    ensures |replies| <= |turns| <= |asked| && Lines(turns) == asked[..|turns|]
    ensures forall k :: 0 <= k < |replies| ==> replies[k] == ReplyTo(table, asked[k], turns[k].r)
  {
    forall k | 0 <= k < |replies|
      ensures replies[k] == ReplyTo(table, asked[k], turns[k].r)
    {
      assert turns[k] in turns;
      assert Lines(turns)[k] == asked[k] && Replies(turns)[k] == replies[k];
    }
  }

  /** A client that has asked as its loop does, and a device that has answered as its loop
      does, on one connection whose memory is `t`; of each stream any part has arrived.
      Then the device has run the first of the commands asked, and the `k`-th line that
      the client takes for a reply is the answer to its `k`-th command. */
  lemma AskedIsAnswered(
    c: Cipher, key: bytes, t: Table,
    out0: bytes, out: bytes, asked: seq<bytes>, frames: seq<bytes>, cut: bytes, up: bytes,
    table: seq<Entry>, digest: Digest, turns: seq<Turn>, first: View, last: View,
    log: Log, next: nat, missing: nat, down: bytes, replies: seq<bytes>)
    requires Client.Asked(c, NewSession(key, DIR_CLIENT, DIR_SERVER), out0, t, out, asked, frames, cut)
    requires |asked| < TWO_64 && up <= Flatten(frames) + cut
    requires Lines(turns) <= ReceiveAll(t, NewSession(key, DIR_SERVER, DIR_CLIENT), Deframe(up, FRAME_CAP), MAX_LINE)
    requires History(table, digest, turns, first, last)
    requires Sealing(c, key, next, t, log) && |log.lines| < TWO_64 && Answered(log.lines, turns, missing)
    requires down <= Flatten(log.frames)
    requires replies <= NonEvents(Client.Incoming(t, NewSession(key, DIR_CLIENT, DIR_SERVER), down))
    ensures |replies| <= |turns| <= |asked| && Lines(turns) == asked[..|turns|]
    ensures forall k :: 0 <= k < |replies| ==> replies[k] == ReplyTo(table, asked[k], turns[k].r)
  {
    UpIsRead(c, key, t, asked, frames, cut, up);
    DownIsRead(c, key, t, next, log, turns, missing, down, replies);
    AnswersInOrder(table, digest, turns, first, last, asked, replies);
  }
}
