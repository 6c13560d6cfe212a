/** Answer packets written out byte by byte, and the parser's round trip on them. */
module Packets {
  import opened Bytes
  import opened Names
  import opened Records
  import opened Responses
  import opened StoredNames
  import opened Wire

  function EncodeName(labels: seq<bytes>): bytes {
    EncodeLabels(labels) + [0]
  }

  function EncodeStrings(strings: seq<bytes>): bytes {
    if strings == [] then [] else [|strings[0]| % 256] + strings[0] + EncodeStrings(strings[1..])
  }

  /** The data part of a record. */
  function Data(rec: Record): bytes {
    match rec
    case Ptr(_, target) => EncodeName(target)
    case Srv(_, port, target) => [0, 0, 0, 0] + Be(2, port) + EncodeName(target)
    case Txt(_, strings) => EncodeStrings(strings)
    case Addr(_, ip) => ip
    case Other(_, _, data) => data
  }

  /** What the format can carry at all. */
  ghost predicate Encodable(rec: Record) {
    && GoodLabels(rec.owner) && rec.Kind() <= MAX_FRAME && |Data(rec)| <= MAX_FRAME
    && match rec
       case Ptr(_, target) => GoodLabels(target)
       case Srv(_, port, target) => port <= MAX_FRAME && GoodLabels(target)
       case Txt(_, strings) => forall k :: 0 <= k < |strings| ==> 1 <= |strings[k]| <= 255
       case Addr(_, ip) => |ip| == 4
       case Other(_, kind, _) => kind != TYPE_PTR && kind != TYPE_SRV && kind != TYPE_TXT && kind != TYPE_A
  }

  /** Type, class, time to live and data length, in front of the data. */
  function Middle(rec: Record): bytes {
    Be(2, rec.Kind()) + [0, 1, 0, 0, 0, 0] + Be(2, |Data(rec)|)
  }

  function EncodeRecord(rec: Record): bytes {
    EncodeName(rec.owner) + (Middle(rec) + Data(rec))
  }

  function EncodeAll(recs: seq<Record>): bytes {
    if recs == [] then [] else EncodeRecord(recs[0]) + EncodeAll(recs[1..])
  }

  /** A question; a responder repeats those it answers. */
  datatype Question = Question(name: seq<bytes>, kind: nat, class_: nat)

  function EncodeQuestion(q: Question): bytes {
    EncodeName(q.name) + (Be(2, q.kind) + Be(2, q.class_))
  }

  function EncodeQuestions(qs: seq<Question>): bytes {
    if qs == [] then [] else EncodeQuestion(qs[0]) + EncodeQuestions(qs[1..])
  }

  function QuestionNames(qs: seq<Question>): (names: seq<seq<bytes>>)
    ensures |names| == |qs|
  {
    if qs == [] then [] else [qs[0].name] + QuestionNames(qs[1..])
  }

  ghost predicate AllGood(qs: seq<Question>) {
    forall k :: 0 <= k < |qs| ==> GoodLabels(qs[k].name)
  }

  /** How many questions, answers, authority and additional records follow. */
  datatype Counts = Counts(questions: nat, answers: nat, authority: nat, additional: nat)
  {
    function Records(): nat {
      answers + authority + additional
    }

    predicate Fits() {
      questions <= MAX_FRAME && answers <= MAX_FRAME && authority <= MAX_FRAME && additional <= MAX_FRAME
    }
  }

  /** Identifier, flags and counters. */
  function Fixed(n: Counts): bytes {
    [0, 0, 0x84, 0] + (Be(2, n.questions) + (Be(2, n.answers) + (Be(2, n.authority) + Be(2, n.additional))))
  }

  function Packet(n: Counts, qs: seq<Question>, recs: seq<Record>): bytes {
    Fixed(n) + (EncodeQuestions(qs) + EncodeAll(recs))
  }

  lemma U16OfBe(pkt: bytes, at: nat, v: nat)
    requires Occurs(pkt, at, Be(2, v)) && v <= MAX_FRAME
    ensures U16(pkt, at) == v
  {
    assert Be(1, v / 256) == Be(0, v / 256 / 256) + [v / 256 % 256];
    assert Be(2, v) == [v / 256, v % 256];
    assert pkt[at + 0] == Be(2, v)[0] && pkt[at + 1] == Be(2, v)[1];
  }

  lemma MiddleFields(pkt: bytes, n: nat, rec: Record)
    requires Encodable(rec) && Occurs(pkt, n, Middle(rec))
    ensures U16(pkt, n) == rec.Kind() && U16(pkt, n + 8) == |Data(rec)|
  {
    Regroup(Be(2, rec.Kind()), [0, 1, 0, 0, 0, 0], Be(2, |Data(rec)|));
    OccursSplit(pkt, n, Be(2, rec.Kind()), [0, 1, 0, 0, 0, 0] + Be(2, |Data(rec)|));
    OccursSplit(pkt, n + 2, [0, 1, 0, 0, 0, 0], Be(2, |Data(rec)|));
    U16OfBe(pkt, n, rec.Kind());
    U16OfBe(pkt, n + 8, |Data(rec)|);
  }

  lemma NameIsStored(pkt: bytes, o: nat, labels: seq<bytes>)
    requires GoodLabels(labels) && Occurs(pkt, o, EncodeName(labels))
    ensures NameAt(pkt, o, labels, o + |EncodeName(labels)|)
  {
    PlainNameRoundTrip(pkt, o, labels);
    assert 0 <= MAX_HOPS && Stored(pkt, o, labels, 0);
  }

  /** The text of a record ends at its end, at an empty string, or at one that overruns it. */
  lemma {:induction false} StringsAreRead(pkt: bytes, at: nat, strings: seq<bytes>, end: nat)
    requires Occurs(pkt, at, EncodeStrings(strings)) && at + |EncodeStrings(strings)| <= end <= |pkt|
    requires var p := at + |EncodeStrings(strings)|; p == end || pkt[p] == 0 || p + 1 + pkt[p] > end
    requires forall k :: 0 <= k < |strings| ==> 1 <= |strings[k]| <= 255
    ensures TxtStrings(pkt, at, end) == strings
    decreases |strings|
  {
    if strings != [] {
      var s, rest := strings[0], strings[1..];
      OccursSplit(pkt, at, [|s| % 256] + s, EncodeStrings(rest));
      OccursSplit(pkt, at, [|s| % 256], s);
      assert pkt[at + 0] == [|s| % 256][0];
      assert pkt[at + 1..at + 1 + |s|] == s;
      assert forall k :: 0 <= k < |rest| ==> rest[k] == strings[k + 1];
      StringsAreRead(pkt, at + 1 + |s|, rest, end);
      assert strings == [s] + rest;
    }
  }

  lemma SrvIsThere(pkt: bytes, at: nat, rec: Record)
    requires Encodable(rec) && rec.Srv? && Occurs(pkt, at, Data(rec)) && at + |Data(rec)| <= |pkt|
    ensures DataAt(pkt, at, |Data(rec)|, rec)
  {
    OccursSplit(pkt, at, [0, 0, 0, 0] + Be(2, rec.port), EncodeName(rec.target));
    OccursSplit(pkt, at, [0, 0, 0, 0], Be(2, rec.port));
    U16OfBe(pkt, at + 4, rec.port);
    NameIsStored(pkt, at + 6, rec.target);
  }

  lemma DataIsThere(pkt: bytes, at: nat, rec: Record)
    requires Encodable(rec) && Occurs(pkt, at, Data(rec)) && at + |Data(rec)| <= |pkt|
    ensures DataAt(pkt, at, |Data(rec)|, rec)
  {
    hide Stored;
    match rec
    case Ptr(_, target) => NameIsStored(pkt, at, target);
    case Srv(_, _, _) => SrvIsThere(pkt, at, rec);
    case Txt(_, strings) => StringsAreRead(pkt, at, strings, at + |Data(rec)|);
    case Addr(_, ip) => assert pkt[at..at + 4] == ip;
    case Other(_, _, _) =>
  }

  /** A record standing at `off`; `next` is the offset behind it. */
  lemma RecordIsThere(pkt: bytes, off: nat, rec: Record) returns (n: nat, next: nat)
    requires Encodable(rec) && Occurs(pkt, off, EncodeRecord(rec))
    ensures next == off + |EncodeRecord(rec)| == n + 10 + |Data(rec)|
    ensures RecordAt(pkt, off, rec, n, |Data(rec)|)
  {
    n := off + |EncodeName(rec.owner)|;
    next := n + 10 + |Data(rec)|;
    RecordParts(pkt, off, rec, n);
    assert NameAt(pkt, off, rec.owner, n) by {
      NameIsStored(pkt, off, rec.owner);
    }
    assert U16(pkt, n) == rec.Kind() && U16(pkt, n + 8) == |Data(rec)| by {
      MiddleFields(pkt, n, rec);
    }
    assert DataAt(pkt, n + 10, |Data(rec)|, rec) by {
      DataIsThere(pkt, n + 10, rec);
    }
  }

  lemma RecordParts(pkt: bytes, off: nat, rec: Record, n: nat)
    requires Occurs(pkt, off, EncodeRecord(rec)) && n == off + |EncodeName(rec.owner)|
    ensures |EncodeRecord(rec)| == |EncodeName(rec.owner)| + 10 + |Data(rec)| && n + 10 + |Data(rec)| <= |pkt|
    ensures Occurs(pkt, off, EncodeName(rec.owner)) && Occurs(pkt, n, Middle(rec)) && Occurs(pkt, n + 10, Data(rec))
  {
    OccursSplit(pkt, off, EncodeName(rec.owner), Middle(rec) + Data(rec));
    OccursSplit(pkt, n, Middle(rec), Data(rec));
  }

  lemma HeadIsThere(pkt: bytes, off: nat, recs: seq<Record>, next: nat)
    requires recs != [] && Encodable(recs[0]) && Occurs(pkt, off, EncodeRecord(recs[0]))
    requires next == off + |EncodeRecord(recs[0])| && RecordsAt(pkt, next, recs[1..])
    ensures RecordsAt(pkt, off, recs)
  {
    var n, _ := RecordIsThere(pkt, off, recs[0]);
    RecordsCons(pkt, off, recs, n, |Data(recs[0])|);
  }

  lemma RecordsCons(pkt: bytes, off: nat, recs: seq<Record>, n: nat, len: nat)
    requires recs != [] && RecordAt(pkt, off, recs[0], n, len) && RecordsAt(pkt, n + 10 + len, recs[1..])
    ensures RecordsAt(pkt, off, recs)
  {
  }

  ghost predicate AllEncodable(recs: seq<Record>) {
    forall k :: 0 <= k < |recs| ==> Encodable(recs[k])
  }

  lemma EncodingHead(pkt: bytes, off: nat, recs: seq<Record>)
    requires recs != [] && AllEncodable(recs) && Occurs(pkt, off, EncodeAll(recs))
    ensures Encodable(recs[0]) && AllEncodable(recs[1..])
    ensures Occurs(pkt, off, EncodeRecord(recs[0]))
    ensures Occurs(pkt, off + |EncodeRecord(recs[0])|, EncodeAll(recs[1..]))
  {
    OccursSplit(pkt, off, EncodeRecord(recs[0]), EncodeAll(recs[1..]));
    assert forall k :: 0 <= k < |recs[1..]| ==> recs[1..][k] == recs[k + 1];
  }

  lemma {:induction false} AllAreThere(pkt: bytes, off: nat, recs: seq<Record>)
    requires Occurs(pkt, off, EncodeAll(recs)) && AllEncodable(recs)
    ensures RecordsAt(pkt, off, recs)
    decreases |recs|
  {
    if recs != [] {
      EncodingHead(pkt, off, recs);
      var next := off + |EncodeRecord(recs[0])|;
      AllAreThere(pkt, next, recs[1..]);
      HeadIsThere(pkt, off, recs, next);
    }
  }

  lemma CountersOfFixed(pkt: bytes, n: Counts)
    requires Occurs(pkt, 0, Fixed(n)) && n.Fits()
    ensures HEADER <= |pkt| && U16(pkt, 4) == n.questions && U16(pkt, 6) == n.answers
    ensures HEADER <= |pkt| && U16(pkt, 8) == n.authority && U16(pkt, 10) == n.additional
  {
    var d := Be(2, n.additional);
    var c := Be(2, n.authority) + d;
    var b := Be(2, n.answers) + c;
    OccursSplit(pkt, 0, [0, 0, 0x84, 0], Be(2, n.questions) + b);
    OccursSplit(pkt, 4, Be(2, n.questions), b);
    OccursSplit(pkt, 6, Be(2, n.answers), c);
    OccursSplit(pkt, 8, Be(2, n.authority), d);
    U16OfBe(pkt, 4, n.questions);
    U16OfBe(pkt, 6, n.answers);
    U16OfBe(pkt, 8, n.authority);
    U16OfBe(pkt, 10, n.additional);
  }

  /** The first question stands at `off`, the others behind it. */
  lemma QuestionHead(pkt: bytes, off: nat, qs: seq<Question>) returns (n: nat)
    requires qs != [] && AllGood(qs) && Occurs(pkt, off, EncodeQuestions(qs))
    ensures NameAt(pkt, off, qs[0].name, n) && n + 4 <= |pkt|
    ensures off + |EncodeQuestions(qs)| == n + 4 + |EncodeQuestions(qs[1..])|
    ensures Occurs(pkt, n + 4, EncodeQuestions(qs[1..])) && AllGood(qs[1..])
  {
    n := off + |EncodeName(qs[0].name)|;
    OccursSplit(pkt, off, EncodeQuestion(qs[0]), EncodeQuestions(qs[1..]));
    OccursSplit(pkt, off, EncodeName(qs[0].name), Be(2, qs[0].kind) + Be(2, qs[0].class_));
    NameIsStored(pkt, off, qs[0].name);
    assert forall k :: 0 <= k < |qs[1..]| ==> qs[1..][k] == qs[k + 1];
  }

  lemma QuestionsCons(pkt: bytes, off: nat, name: seq<bytes>, rest: seq<seq<bytes>>, n: nat, end: nat)
    requires NameAt(pkt, off, name, n) && n + 4 <= |pkt| && QuestionsAt(pkt, n + 4, rest, end)
    ensures QuestionsAt(pkt, off, [name] + rest, end)
  {
    var names := [name] + rest;
    assert names[0] == name && names[1..] == rest;
    assert NameAt(pkt, off, names[0], n) && n + 4 <= |pkt| && QuestionsAt(pkt, n + 4, names[1..], end);
  }

  lemma {:induction false} QuestionsAreThere(pkt: bytes, off: nat, qs: seq<Question>, end: nat)
    requires AllGood(qs) && Occurs(pkt, off, EncodeQuestions(qs)) && end == off + |EncodeQuestions(qs)|
    ensures QuestionsAt(pkt, off, QuestionNames(qs), end)
    decreases |qs|
  {
    if qs != [] {
      var n := QuestionHead(pkt, off, qs);
      QuestionsAreThere(pkt, n + 4, qs[1..], end);
      QuestionsCons(pkt, off, qs[0].name, QuestionNames(qs[1..]), n, end);
    }
  }

  /** Round trip: the packet written for a list of records, behind any questions, parses
      to what a plain fold over the records says. */
  lemma PacketRoundTrip(n: Counts, qs: seq<Question>, recs: seq<Record>, src: bytes)
    requires |src| == 4 && n.Fits() && n.questions == |qs| && n.Records() == |recs|
    requires AllGood(qs) && AllEncodable(recs)
    ensures Parse(Packet(n, qs, recs), src) == Describe(NoticeAll(NOTHING, recs), src)
  {
    PacketParts(n, qs, recs);
    PacketIsParsed(Packet(n, qs, recs), n, qs, recs, src);
  }

  lemma PacketIsParsed(pkt: bytes, n: Counts, qs: seq<Question>, recs: seq<Record>, src: bytes)
    requires |src| == 4 && n.Fits() && n.questions == |qs| && n.Records() == |recs|
    requires AllGood(qs) && AllEncodable(recs) && Occurs(pkt, 0, Fixed(n))
    requires Occurs(pkt, HEADER, EncodeQuestions(qs)) && Occurs(pkt, HEADER + |EncodeQuestions(qs)|, EncodeAll(recs))
    ensures Parse(pkt, src) == Describe(NoticeAll(NOTHING, recs), src)
  {
    PacketHoldsAll(pkt, n, qs, recs);
    ParseFollowsRecords(pkt, QuestionNames(qs), HEADER + |EncodeQuestions(qs)|, recs, src);
  }

  lemma PacketHoldsAll(pkt: bytes, n: Counts, qs: seq<Question>, recs: seq<Record>)
    requires n.Fits() && AllGood(qs) && AllEncodable(recs) && Occurs(pkt, 0, Fixed(n))
    requires Occurs(pkt, HEADER, EncodeQuestions(qs)) && Occurs(pkt, HEADER + |EncodeQuestions(qs)|, EncodeAll(recs))
    ensures HEADER <= |pkt| && U16(pkt, 4) == n.questions
    ensures U16(pkt, 6) + U16(pkt, 8) + U16(pkt, 10) == n.Records()
    ensures QuestionsAt(pkt, HEADER, QuestionNames(qs), HEADER + |EncodeQuestions(qs)|)
    ensures RecordsAt(pkt, HEADER + |EncodeQuestions(qs)|, recs)
  {
    CountersOfFixed(pkt, n);
    QuestionsAreThere(pkt, HEADER, qs, HEADER + |EncodeQuestions(qs)|);
    AllAreThere(pkt, HEADER + |EncodeQuestions(qs)|, recs);
  }

  lemma PacketParts(n: Counts, qs: seq<Question>, recs: seq<Record>)
    ensures var pkt := Packet(n, qs, recs);
            && Occurs(pkt, 0, Fixed(n)) && Occurs(pkt, HEADER, EncodeQuestions(qs))
            && Occurs(pkt, HEADER + |EncodeQuestions(qs)|, EncodeAll(recs))
  {
    var pkt := Packet(n, qs, recs);
    OccursSplit(pkt, 0, Fixed(n), EncodeQuestions(qs) + EncodeAll(recs));
    OccursSplit(pkt, HEADER, EncodeQuestions(qs), EncodeAll(recs));
  }
}
