/** What parse_response makes of a packet whose records are known: a fold over the
    records, in which the last one of a kind wins. */
module Records {
  import opened Bytes
  import opened Names
  import opened Responses
  import opened StoredNames
  import opened Wire

  /** A resource record as its sender means it. */
  datatype Record =
    | Ptr(owner: seq<bytes>, target: seq<bytes>)
    | Srv(owner: seq<bytes>, port: nat, target: seq<bytes>)
    | Txt(owner: seq<bytes>, strings: seq<bytes>)
    | Addr(owner: seq<bytes>, ip: bytes)
    | Other(owner: seq<bytes>, kind: nat, data: bytes)
  {
    function Kind(): nat {
      match this
      case Ptr(_, _) => TYPE_PTR
      case Srv(_, _, _) => TYPE_SRV
      case Txt(_, _) => TYPE_TXT
      case Addr(_, _) => TYPE_A
      case Other(_, k, _) => k
    }

    /** The record as the parser cuts it out of a packet. */
    function AsCut(at: nat, len: nat): Rr {
      Rr(NameText(owner, NAME_CAP), Kind(), at, len)
    }

    predicate Ours() {
      AsCut(0, 0).Ours(Kind())
    }
  }

  /** The knowledge gathered from records. */
  datatype Seen = Seen(
    found: bool, instance: bytes, host: bytes, port: nat, txt: bytes, aHost: bytes, aIp: bytes)

  function Notice(s: Seen, rec: Record): Seen {
    match rec
    case Ptr(_, target) =>
      if rec.Ours() then s.(found := true, instance := Truncated(UpToDot(NameText(target, NAME_CAP)), 63)) else s
    case Srv(_, port, target) =>
      if rec.Ours() then s.(port := port, host := NameText(target, HOST_CAP)) else s
    case Txt(_, strings) =>
      if rec.Ours() then s.(txt := Truncated(Join(strings), TXT_MAX)) else s
    case Addr(owner, ip) =>
      if |ip| == 4 then s.(aHost := Truncated(NameText(owner, NAME_CAP), 63), aIp := Ntop(ip)) else s
    case Other(_, _, _) => s
  }

  function NoticeAll(s: Seen, recs: seq<Record>): Seen
    decreases |recs|
  {
    if recs == [] then s else NoticeAll(Notice(s, recs[0]), recs[1..])
  }

  const NOTHING := Seen(false, [], [], 0, [], [], [])

  /** The device the records describe, if one of them names an instance. */
  function Describe(s: Seen, src: bytes): Option<Found>
    requires |src| == 4
  {
    if !s.found then None else Some(Found(
      if s.instance == [] then Ascii("espshell") else s.instance,
      s.host,
      if s.aIp != [] && (s.host == [] || s.aHost == s.host) then s.aIp else Ntop(src),
      if s.port == 0 then DEFAULT_PORT else s.port,
      CString(s.txt)))
  }

  /** A name is stored at `o`, in any legal form, and ends at `end`. */
  ghost predicate NameAt(pkt: bytes, o: nat, labels: seq<bytes>, end: nat) {
    StoredWithinLimit(pkt, o, labels) && Expand(pkt, o, 0).end == end
  }

  /** The record's data stands at `at`, `len` bytes of it. */
  ghost predicate DataAt(pkt: bytes, at: nat, len: nat, rec: Record)
    requires at + len <= |pkt|
  {
    match rec
    case Ptr(_, target) => StoredWithinLimit(pkt, at, target)
    case Srv(_, port, target) => len >= 7 && U16(pkt, at + 4) == port && StoredWithinLimit(pkt, at + 6, target)
    case Txt(_, strings) => TxtStrings(pkt, at, at + len) == strings
    case Addr(_, ip) => len == 4 && pkt[at..at + 4] == ip
    case Other(_, kind, _) => kind != TYPE_PTR && kind != TYPE_SRV && kind != TYPE_TXT && kind != TYPE_A
  }

  /** The record is stored at `off`, its owner name ending at `n`, its data `len` bytes. */
  ghost predicate RecordAt(pkt: bytes, off: nat, rec: Record, n: nat, len: nat) {
    && NameAt(pkt, off, rec.owner, n)
    && n + 10 + len <= |pkt|
    && U16(pkt, n) == rec.Kind() && U16(pkt, n + 8) == len
    && DataAt(pkt, n + 10, len, rec)
  }

  /** The records are stored one behind the other from `off` on. */
  ghost predicate RecordsAt(pkt: bytes, off: nat, recs: seq<Record>)
    decreases |recs|
  {
    recs == [] ||
    exists n: nat, len: nat :: RecordAt(pkt, off, recs[0], n, len) && RecordsAt(pkt, n + 10 + len, recs[1..])
  }

  /** The buffers hold what has been noticed. */
  ghost predicate Matches(f: Facts, s: Seen) {
    |f.hostname| == HOST_CAP && s == Seen(f.found, f.instance, CString(f.hostname), f.port, f.txt, f.aHost, f.aIp)
  }

  lemma RecordIsCut(pkt: bytes, off: nat, rec: Record, n: nat, len: nat)
    requires RecordAt(pkt, off, rec, n, len)
    ensures RrAt(pkt, off) == Some(rec.AsCut(n + 10, len)) && off < |pkt|
  {
    AcceptsExactlyStoredNames(pkt, off, rec.owner);
  }

  lemma LearnMatchesSrv(pkt: bytes, rec: Record, at: nat, len: nat, f: Facts, s: Seen)
    requires at + len <= |pkt| && DataAt(pkt, at, len, rec) && Matches(f, s) && rec.Srv?
    ensures Matches(Learn(pkt, f, rec.AsCut(at, len)), Notice(s, rec))
  {
    AcceptsExactlyStoredNames(pkt, at + 6, rec.target);
    ResultIsString(f.hostname, Expand(pkt, at + 6, 0));
  }

  lemma LearnMatches(pkt: bytes, rec: Record, at: nat, len: nat, f: Facts, s: Seen)
    requires at + len <= |pkt| && DataAt(pkt, at, len, rec) && Matches(f, s)
    ensures Matches(Learn(pkt, f, rec.AsCut(at, len)), Notice(s, rec))
  {
    match rec
    case Ptr(_, target) => AcceptsExactlyStoredNames(pkt, at, target);
    case Srv(_, _, _) => LearnMatchesSrv(pkt, rec, at, len, f, s);
    case _ =>
  }

  lemma NoticeFirst(s: Seen, recs: seq<Record>)
    requires recs != []
    ensures NoticeAll(s, recs) == NoticeAll(Notice(s, recs[0]), recs[1..])
  {
  }

  /** The parser cuts out the first record; the others stand behind it. */
  lemma FirstIsCut(pkt: bytes, off: nat, recs: seq<Record>) returns (at: nat, len: nat)
    requires recs != [] && RecordsAt(pkt, off, recs)
    ensures RrAt(pkt, off) == Some(recs[0].AsCut(at, len)) && off < |pkt|
    ensures at + len <= |pkt| && DataAt(pkt, at, len, recs[0]) && RecordsAt(pkt, at + len, recs[1..])
  {
    var n: nat;
    n, len :| RecordAt(pkt, off, recs[0], n, len) && RecordsAt(pkt, n + 10 + len, recs[1..]);
    RecordIsCut(pkt, off, recs[0], n, len);
    at := n + 10;
  }

  /** One record done: the facts learnt from it, and what is left of the packet. */
  lemma LearnFirst(pkt: bytes, off: nat, count: nat, cut: Rr, f: Facts, s: Seen) returns (g: Facts)
    requires 0 < count && off < |pkt| && RrAt(pkt, off) == Some(cut)
    requires cut.at + cut.len <= |pkt| && |f.hostname| == HOST_CAP && Matches(Learn(pkt, f, cut), s)
    ensures Matches(g, s) && LearnAll(pkt, off, count, f) == LearnAll(pkt, cut.at + cut.len, count - 1, g)
  {
    g := Learn(pkt, f, cut);
    LearnStep(pkt, off, count, f, cut);
  }

  /** The parser cuts out the first record and learns from it what there is to notice. */
  lemma FirstIsLearnt(pkt: bytes, off: nat, recs: seq<Record>, f: Facts, s: Seen) returns (cut: Rr)
    requires recs != [] && RecordsAt(pkt, off, recs) && Matches(f, s)
    ensures off < |pkt| && RrAt(pkt, off) == Some(cut) && cut.at + cut.len <= |pkt|
    ensures RecordsAt(pkt, cut.at + cut.len, recs[1..]) && Matches(Learn(pkt, f, cut), Notice(s, recs[0]))
  {
    var at, len := FirstIsCut(pkt, off, recs);
    cut := recs[0].AsCut(at, len);
    LearnMatches(pkt, recs[0], at, len, f, s);
  }

  lemma {:induction false} LearnAllMatches(pkt: bytes, off: nat, recs: seq<Record>, f: Facts, s: Seen)
    requires RecordsAt(pkt, off, recs) && Matches(f, s)
    ensures Matches(LearnAll(pkt, off, |recs|, f), NoticeAll(s, recs))
    decreases |recs|
  {
    if recs != [] {
      var later := Notice(s, recs[0]);
      var cut := FirstIsLearnt(pkt, off, recs, f, s);
      var g := LearnFirst(pkt, off, |recs|, cut, f, later);
      LearnAllMatches(pkt, cut.at + cut.len, recs[1..], g, later);
      NoticeFirst(s, recs);
    }
  }

  /** Questions are stored one behind the other from `off` on: a name, type and class. */
  ghost predicate QuestionsAt(pkt: bytes, off: nat, names: seq<seq<bytes>>, end: nat)
    decreases |names|
  {
    if names == [] then end == off && off <= |pkt|
    else exists n: nat :: NameAt(pkt, off, names[0], n) && n + 4 <= |pkt| && QuestionsAt(pkt, n + 4, names[1..], end)
  }

  lemma {:induction false} QuestionsAreSkipped(pkt: bytes, off: nat, names: seq<seq<bytes>>, end: nat)
    requires QuestionsAt(pkt, off, names, end)
    ensures Questions(pkt, off, |names|) == Some(end) && end <= |pkt|
    decreases |names|
  {
    if names != [] {
      var n: nat :| NameAt(pkt, off, names[0], n) && n + 4 <= |pkt| && QuestionsAt(pkt, n + 4, names[1..], end);
      AcceptsExactlyStoredNames(pkt, off, names[0]);
      QuestionsAreSkipped(pkt, n + 4, names[1..], end);
    }
  }

  lemma {:induction false} CStringOfZeros(n: nat)
    ensures CString(seq(n, _ => 0 as byte)) == []
  {
  }

  /** A packet whose counters announce exactly its questions and records, with names
      compressed in any legal way, yields the device the records describe. */
  lemma ParseFollowsRecords(pkt: bytes, names: seq<seq<bytes>>, start: nat, recs: seq<Record>, src: bytes)
    requires |src| == 4 && HEADER <= |pkt| && U16(pkt, 4) == |names| && QuestionsAt(pkt, HEADER, names, start)
    requires U16(pkt, 6) + U16(pkt, 8) + U16(pkt, 10) == |recs| && RecordsAt(pkt, start, recs)
    ensures Parse(pkt, src) == Describe(NoticeAll(NOTHING, recs), src)
  {
    QuestionsAreSkipped(pkt, HEADER, names, start);
    ParseLearns(pkt, start, |recs|, src);
    CStringOfZeros(HOST_CAP);
    LearnAllMatches(pkt, start, recs, NoFacts(), NOTHING);
    MatchesDescribe(LearnAll(pkt, start, |recs|, NoFacts()), NoticeAll(NOTHING, recs), src);
  }

  lemma ParseLearns(pkt: bytes, start: nat, count: nat, src: bytes)
    requires |src| == 4 && HEADER <= |pkt| && Questions(pkt, HEADER, U16(pkt, 4)) == Some(start)
    requires U16(pkt, 6) + U16(pkt, 8) + U16(pkt, 10) == count
    ensures Parse(pkt, src) == Conclude(LearnAll(pkt, start, count, NoFacts()), src)
  {
  }

  lemma MatchesDescribe(f: Facts, s: Seen, src: bytes)
    requires |src| == 4 && Matches(f, s)
    ensures Conclude(f, src) == Describe(s, src)
  {
  }
}
