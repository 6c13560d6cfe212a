/** The mDNS answer parser: parse_response of tools/esp-ctl/src/discover.c. */
module Responses {
  import opened Bytes
  import opened Decimal
  import opened Names

  const TYPE_A := 1
  const TYPE_PTR := 12
  const TYPE_TXT := 16
  const TYPE_SRV := 33
  const HEADER := 12
  const DEFAULT_PORT := 9000
  const NAME_CAP := 256
  const HOST_CAP := 64
  const TXT_MAX := 127

  function Service(): bytes {
    Ascii("_espshell._tcp")
  }

  function U16(pkt: bytes, i: nat): nat
    requires i + 2 <= |pkt|
  {
    var high: int := pkt[i];
    high * 256 + pkt[i + 1]
  }

  function UpToDot(s: bytes): (r: bytes)
    ensures r <= s
  {
    if s == [] || s[0] == DOT then [] else [s[0]] + UpToDot(s[1..])
  }

  /** `inet_ntop` of four address bytes. */
  function Ntop(a: bytes): bytes
    requires |a| == 4
  {
    Digits(a[0]) + [DOT] + Digits(a[1]) + [DOT] + Digits(a[2]) + [DOT] + Digits(a[3])
  }

  /** The character strings of a TXT record, up to an empty one or one that
      overruns the record. */
  function TxtStrings(pkt: bytes, p: nat, end: nat): seq<bytes>
    requires end <= |pkt|
    decreases end - p
  {
    if p >= end || pkt[p] == 0 || p + 1 + pkt[p] > end then []
    else [pkt[p + 1..p + 1 + pkt[p]]] + TxtStrings(pkt, p + 1 + pkt[p], end)
  }

  /** What has been learnt so far. `hostname` is the raw buffer, the others are the
      contents of theirs. */
  datatype Facts = Facts(
    found: bool, instance: bytes, hostname: bytes, port: nat, txt: bytes, aHost: bytes, aIp: bytes)

  function NoFacts(): Facts {
    Facts(false, [], seq(HOST_CAP, _ => 0), 0, [], [], [])
  }

  /** One resource record, cut out of the packet. */
  datatype Rr = Rr(owner: bytes, kind: nat, at: nat, len: nat) {
    predicate Ours(code: nat) {
      kind == code && Contains(owner, Service())
    }
  }

  function LearnPtr(f: Facts, target: Walk): (g: Facts)
    ensures g.hostname == f.hostname
  {
    if target.ok then
      f.(instance := Truncated(UpToDot(NameText(target.labels, NAME_CAP)), 63), found := true)
    else
      f
  }

  function Learn(pkt: bytes, f: Facts, rr: Rr): (g: Facts)
    requires rr.at + rr.len <= |pkt| && |f.hostname| == HOST_CAP
    ensures |g.hostname| == HOST_CAP
  {
    if rr.Ours(TYPE_PTR) then
      LearnPtr(f, Expand(pkt, rr.at, 0))
    else if rr.Ours(TYPE_SRV) then
      if rr.len < 7 then f
      else f.(port := U16(pkt, rr.at + 4), hostname := Result(f.hostname, Expand(pkt, rr.at + 6, 0)))
    else if rr.Ours(TYPE_TXT) then
      f.(txt := Truncated(Join(TxtStrings(pkt, rr.at, rr.at + rr.len)), TXT_MAX))
    else if rr.kind == TYPE_A && rr.len == 4 then
      f.(aHost := Truncated(rr.owner, 63), aIp := Ntop(pkt[rr.at..rr.at + 4]))
    else
      f
  }

  /** The record at `off`, if it is whole. Its end lies behind its start. */
  function RrAt(pkt: bytes, off: nat): (r: Option<Rr>)
    ensures r.Some? ==> off < r.value.at && r.value.at + r.value.len <= |pkt|
  {
    var n := Expand(pkt, off, 0);
    if !n.ok || n.end + 10 > |pkt| || n.end + 10 + U16(pkt, n.end + 8) > |pkt| then None
    else Some(Rr(NameText(n.labels, NAME_CAP), U16(pkt, n.end), n.end + 10, U16(pkt, n.end + 8)))
  }

  /** Learns from up to `count` records, starting at `off`. */
  function LearnAll(pkt: bytes, off: nat, count: nat, f: Facts): (g: Facts)
    requires |f.hostname| == HOST_CAP
    ensures |g.hostname| == HOST_CAP
    decreases count
  {
    if count == 0 || off >= |pkt| then f else
    var r := RrAt(pkt, off);
    if r.None? then f else LearnAll(pkt, r.value.at + r.value.len, count - 1, Learn(pkt, f, r.value))
  }

  /** The offset behind `count` questions. */
  function Questions(pkt: bytes, off: nat, count: nat): (r: Option<nat>)
    ensures r.Some? && off <= |pkt| ==> off <= r.value <= |pkt|
    decreases count
  {
    if count == 0 then Some(off) else
    var n := Expand(pkt, off, 0);
    if !n.ok || n.end + 4 > |pkt| then None else Questions(pkt, n.end + 4, count - 1)
  }

  /** A device as do_discover prints it. */
  datatype Found = Found(instance: bytes, hostname: bytes, ip: bytes, port: nat, txt: bytes)

  /** The address record counts when its owner is the service's host, or when no
      host is known; otherwise the packet's source does. Then come the defaults. */
  function Conclude(f: Facts, src: bytes): Option<Found>
    requires |src| == 4
  {
    if !f.found then None else
    var host := CString(f.hostname);
    Some(Found(
      if f.instance == [] then Ascii("espshell") else f.instance,
      host,
      if f.aIp != [] && (host == [] || f.aHost == host) then f.aIp else Ntop(src),
      if f.port == 0 then DEFAULT_PORT else f.port,
      CString(f.txt)))
  }

  function Parse(pkt: bytes, src: bytes): Option<Found>
    requires |src| == 4
  {
    if |pkt| < HEADER then None else
    var off := Questions(pkt, HEADER, U16(pkt, 4));
    if off.None? then None else
    Conclude(LearnAll(pkt, off.value, U16(pkt, 6) + U16(pkt, 8) + U16(pkt, 10), NoFacts()), src)
  }

  /** device_t, with the strings of its fixed-size fields. */
  class Device {
    var instance: bytes
    const hostname: array<byte>
    var ip: bytes
    var port: nat
    var txt: bytes

    constructor ()
      ensures fresh(hostname) && hostname.Length == HOST_CAP
    {
      instance, ip, port, txt := [], [], 0, [];
      hostname := new byte[HOST_CAP](_ => 0);
    }
  }

  /** The facts held by a half-filled device and the parser's locals. */
  function Held(dev: Device, found: bool, aHost: bytes, aIp: bytes): Facts
    reads dev, dev.hostname
  {
    Facts(found, dev.instance, dev.hostname[..], dev.port, dev.txt, aHost, aIp)
  }

  lemma {:induction false} JoinAppend(parts: seq<bytes>, last: bytes)
    ensures Join(parts + [last]) == if parts == [] then last else Join(parts) + [SPACE] + last
    decreases |parts|
  {
    if |parts| > 1 {
      assert (parts + [last])[1..] == parts[1..] + [last];
      JoinAppend(parts[1..], last);
      Regroup(parts[0] + [SPACE], Join(parts[1..]), [SPACE]);
      Regroup(parts[0] + [SPACE], Join(parts[1..]) + [SPACE], last);
    } else if |parts| == 1 {
      assert (parts + [last])[1..] == [last];
    }
  }

  /** One byte-wise copy into the text field, which has room for 127 bytes. */
  method AddTo(txt0: bytes, s: bytes) returns (txt: bytes)
    requires |txt0| <= TXT_MAX
    ensures txt == Truncated(txt0 + s, TXT_MAX)
  {
    txt := txt0;
    var j := 0;
    while j < |s| && |txt| < TXT_MAX
      invariant j <= |s| && txt == txt0 + s[..j] && |txt| <= TXT_MAX
    {
      txt := txt + [s[j]];
      j := j + 1;
    }
  }

  lemma TruncateAgain(a: bytes, s: bytes, max: nat)
    ensures Truncated(Truncated(a, max) + s, max) == Truncated(a + s, max)
  {
  }

  /** Adds one character string to the text, with a space in between. */
  method AddString(txt0: bytes, s: bytes, ghost done: seq<bytes>) returns (txt: bytes)
    requires txt0 == Truncated(Join(done), TXT_MAX) && (txt0 == [] <==> done == []) && s != []
    ensures txt == Truncated(Join(done + [s]), TXT_MAX) && txt != []
  {
    JoinAppend(done, s);
    txt := txt0;
    if txt != [] && |txt| < TXT_MAX {
      txt := txt + [SPACE];
    }
    txt := AddTo(txt, s);
    if done == [] {
      assert [] + s == s;
    } else {
      TruncateAgain(Join(done), [SPACE], TXT_MAX);
      TruncateAgain(Join(done) + [SPACE], s, TXT_MAX);
    }
  }

  method ReadTxt(pkt: bytes, at: nat, len: nat) returns (txt: bytes)
    requires at + len <= |pkt|
    ensures txt == Truncated(Join(TxtStrings(pkt, at, at + len)), TXT_MAX)
  {
    var p, end := at, at + len;
    ghost var all, done: seq<bytes> := TxtStrings(pkt, at, end), [];
    txt := [];
    while p < end && pkt[p] != 0
      invariant at <= p
      invariant all == done + TxtStrings(pkt, p, end)
      invariant txt == Truncated(Join(done), TXT_MAX) && (txt == [] <==> done == [])
      decreases end - p
    {
      var l: int := pkt[p];
      if p + 1 + l > end {
        break;
      }
      var s := pkt[p + 1..p + 1 + l];
      Regroup(done, [s], TxtStrings(pkt, p + 1 + l, end));
      txt := AddString(txt, s, done);
      done := done + [s];
      p := p + 1 + l;
    }
    assert done + [] == done;
  }

  /** Expands a name into a local buffer; `text` is what the buffer then shows. */
  method ReadName(pkt: bytes, off: nat) returns (end: int, text: bytes)
    ensures end == if Expand(pkt, off, 0).ok then Expand(pkt, off, 0).end else -1
    ensures end != -1 ==> text == NameText(Expand(pkt, off, 0).labels, NAME_CAP)
  {
    var buffer := new byte[NAME_CAP];
    ghost var before := buffer[..];
    end := NameRead(pkt, off, buffer);
    if end != -1 {
      ResultIsString(before, Expand(pkt, off, 0));
    }
    text := CString(buffer[..]);
  }

  method SkipQuestions(pkt: bytes, count: nat) returns (off: int)
    requires HEADER <= |pkt|
    ensures off == if Questions(pkt, HEADER, count).Some? then Questions(pkt, HEADER, count).value else -1
  {
    off := HEADER;
    var i := 0;
    while i < count
      invariant 0 <= off && i <= count
      invariant Questions(pkt, off, count - i) == Questions(pkt, HEADER, count)
    {
      var n, _ := ReadName(pkt, off);
      if n < 0 || n + 4 > |pkt| {
        return -1;
      }
      off, i := n + 4, i + 1;
    }
  }

  method LearnOne(pkt: bytes, dev: Device, rr: Rr, found0: bool, aHost0: bytes, aIp0: bytes)
    returns (found: bool, aHost: bytes, aIp: bytes)
    requires rr.at + rr.len <= |pkt| && dev.hostname.Length == HOST_CAP
    modifies dev, dev.hostname
    ensures Held(dev, found, aHost, aIp) == Learn(pkt, old(Held(dev, found0, aHost0, aIp0)), rr)
  {
    found, aHost, aIp := found0, aHost0, aIp0;
    if rr.Ours(TYPE_PTR) {
      var n, inst := ReadName(pkt, rr.at);
      if n < 0 {
        return;
      }
      dev.instance := Truncated(UpToDot(inst), 63);
      found := true;
    } else if rr.Ours(TYPE_SRV) {
      if rr.len < 7 {
        return;
      }
      dev.port := U16(pkt, rr.at + 4);
      var _ := NameRead(pkt, rr.at + 6, dev.hostname);
    } else if rr.Ours(TYPE_TXT) {
      dev.txt := ReadTxt(pkt, rr.at, rr.len);
    } else if rr.kind == TYPE_A && rr.len == 4 {
      aHost := Truncated(rr.owner, 63);
      aIp := Ntop(pkt[rr.at..rr.at + 4]);
    }
  }

  lemma LearnStep(pkt: bytes, off: nat, count: nat, f: Facts, rr: Rr)
    requires |f.hostname| == HOST_CAP && 0 < count && off < |pkt| && RrAt(pkt, off) == Some(rr)
    ensures off < rr.at + rr.len
    ensures LearnAll(pkt, off, count, f) == LearnAll(pkt, rr.at + rr.len, count - 1, Learn(pkt, f, rr))
  {
  }

  lemma LearnStops(pkt: bytes, off: nat, count: nat, f: Facts)
    requires |f.hostname| == HOST_CAP && RrAt(pkt, off).None?
    ensures LearnAll(pkt, off, count, f) == f
  {
  }

  lemma LearnEnds(pkt: bytes, off: nat, count: nat, f: Facts)
    requires |f.hostname| == HOST_CAP && (count == 0 || off >= |pkt|)
    ensures LearnAll(pkt, off, count, f) == f
  {
  }

  method ReadRr(pkt: bytes, off: nat) returns (rr: Option<Rr>)
    ensures rr == RrAt(pkt, off)
  {
    var n, owner := ReadName(pkt, off);
    if n < 0 || n + 10 > |pkt| || n + 10 + U16(pkt, n + 8) > |pkt| {
      return None;
    }
    rr := Some(Rr(owner, U16(pkt, n), n + 10, U16(pkt, n + 8)));
  }

  /** One turn of the loop over the records: where the next one starts, if the
      loop goes on. The offset only moves forward. */
  method Turn(pkt: bytes, off: nat, left: nat, dev: Device, found0: bool, aHost0: bytes, aIp0: bytes)
    returns (next: Option<nat>, found: bool, aHost: bytes, aIp: bytes, ghost f: Facts)
    requires 0 < left && off < |pkt| && dev.hostname.Length == HOST_CAP
    modifies dev, dev.hostname
    ensures f == Held(dev, found, aHost, aIp)
    ensures var all := LearnAll(pkt, off, left, old(Held(dev, found0, aHost0, aIp0)));
            if next.None? then f == all else off < next.value && LearnAll(pkt, next.value, left - 1, f) == all
  {
    found, aHost, aIp := found0, aHost0, aIp0;
    f := Held(dev, found, aHost, aIp);
    var r := ReadRr(pkt, off);
    if r.None? {
      LearnStops(pkt, off, left, f);
      return None, found, aHost, aIp, f;
    }
    LearnStep(pkt, off, left, f, r.value);
    found, aHost, aIp := LearnOne(pkt, dev, r.value, found, aHost, aIp);
    f := Held(dev, found, aHost, aIp);
    next := Some(r.value.at + r.value.len);
  }

  method LearnRecords(pkt: bytes, start: nat, count: nat, dev: Device) returns (found: bool, aHost: bytes, aIp: bytes)
    requires dev.hostname.Length == HOST_CAP
    modifies dev, dev.hostname
    ensures Held(dev, found, aHost, aIp) == LearnAll(pkt, start, count, old(Held(dev, false, [], [])))
  {
    hide LearnAll;
    found, aHost, aIp := false, [], [];
    var off: nat, left: nat := start, count;
    ghost var f := Held(dev, false, [], []);
    ghost var all := LearnAll(pkt, start, count, f);
    assert all == LearnAll(pkt, start, count, old(Held(dev, false, [], [])));
    while left > 0 && off < |pkt|
      invariant f == Held(dev, found, aHost, aIp) && LearnAll(pkt, off, left, f) == all
    {
      var next;
      next, found, aHost, aIp, f := Turn(pkt, off, left, dev, found, aHost, aIp);
      if next.None? {
        assert f == all;
        return;
      }
      off, left := next.value, left - 1;
    }
    LearnEnds(pkt, off, left, f);
  }

  function Shown(dev: Device): Found
    reads dev, dev.hostname
  {
    Found(dev.instance, CString(dev.hostname[..]), dev.ip, dev.port, CString(dev.txt))
  }

  /** `memset(out, 0, sizeof(*out))` */
  method Clear(dev: Device)
    requires dev.hostname.Length == HOST_CAP
    modifies dev, dev.hostname
    ensures Held(dev, false, [], []) == NoFacts()
  {
    dev.instance, dev.ip, dev.port, dev.txt := [], [], 0, [];
    forall i | 0 <= i < HOST_CAP {
      dev.hostname[i] := 0;
    }
    assert dev.hostname[..] == NoFacts().hostname;
  }

  /** The address and the defaults, once an instance has been found. */
  method Finish(dev: Device, src: bytes, aHost: bytes, aIp: bytes)
    requires |src| == 4
    modifies dev
    ensures Conclude(old(Held(dev, true, aHost, aIp)), src) == Some(Shown(dev))
  {
    var host := CString(dev.hostname[..]);
    if aIp != [] && (host == [] || aHost == host) {
      dev.ip := aIp;
    } else {
      dev.ip := Ntop(src);
    }
    if dev.instance == [] {
      dev.instance := Ascii("espshell");
    }
    if dev.port == 0 {
      dev.port := DEFAULT_PORT;
    }
  }

  /** parse_response: does the packet describe a device, and which? */
  method ParseResponse(pkt: bytes, src: bytes, dev: Device) returns (ok: bool)
    requires |src| == 4 && dev.hostname.Length == HOST_CAP
    modifies dev, dev.hostname
    ensures ok <==> Parse(pkt, src).Some?
    ensures ok ==> Shown(dev) == Parse(pkt, src).value
  {
    if |pkt| < HEADER {
      return false;
    }
    var qd, an := U16(pkt, 4), U16(pkt, 6) + U16(pkt, 8) + U16(pkt, 10);
    Clear(dev);
    var off := SkipQuestions(pkt, qd);
    if off < 0 {
      return false;
    }
    var found, aHost, aIp := LearnRecords(pkt, off, an, dev);
    if !found {
      return false;
    }
    Finish(dev, src, aHost, aIp);
    ok := true;
  }
}
