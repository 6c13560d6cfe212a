/** do_discover of tools/esp-ctl/src/discover.c: collecting devices and printing
    them as profile sections, which profile_load reads back. */
module Discover {
  import opened Bytes
  import opened Decimal
  import opened Profiles
  import Names
  import Responses

  const MAX_DEVICES := 16

  type Devices = seq<Responses.Found>

  ghost predicate Distinct(devs: Devices) {
    forall i, j :: 0 <= i < j < |devs| ==> devs[i].instance != devs[j].instance
  }

  function Instances(devs: Devices): (names: seq<bytes>)
    ensures |names| == |devs| && forall i :: 0 <= i < |devs| ==> names[i] == devs[i].instance
  {
    seq(|devs|, i requires 0 <= i < |devs| => devs[i].instance)
  }

  /** The devices collected from packets: the first answer of a name counts, and only
      so many names. */
  function Collected(packets: seq<(bytes, bytes)>): Devices
    requires forall i :: 0 <= i < |packets| ==> |packets[i].1| == 4
  {
    if packets == [] then [] else
    var n := |packets| - 1;
    var devs, r := Collected(packets[..n]), Responses.Parse(packets[n].0, packets[n].1);
    if r.None? || r.value.instance in Instances(devs) || |devs| >= MAX_DEVICES then devs else devs + [r.value]
  }

  method IsKnown(devs: Devices, instance: bytes) returns (dup: bool)
    ensures dup <==> instance in Instances(devs)
  {
    dup := false;
    for i := 0 to |devs|
      invariant dup <==> instance in Instances(devs)[..i]
    {
      assert Instances(devs)[..i + 1] == Instances(devs)[..i] + [devs[i].instance];
      if devs[i].instance == instance {
        dup := true;
      }
    }
    assert Instances(devs)[..|devs|] == Instances(devs);
  }

  lemma DistinctAppend(devs: Devices, d: Responses.Found)
    requires Distinct(devs) && d.instance !in Instances(devs)
    ensures Distinct(devs + [d])
  {
    forall i | 0 <= i < |devs|
      ensures devs[i].instance != d.instance
    {
      assert devs[i].instance == Instances(devs)[i];
    }
  }

  /** The collecting loop. */
  method Collect(packets: seq<(bytes, bytes)>) returns (devs: Devices)
    requires forall i :: 0 <= i < |packets| ==> |packets[i].1| == 4
    ensures devs == Collected(packets) && Distinct(devs) && |devs| <= MAX_DEVICES
  {
    devs := [];
    for k := 0 to |packets|
      invariant devs == Collected(packets[..k]) && Distinct(devs) && |devs| <= MAX_DEVICES
    {
      assert packets[..k + 1][..k] == packets[..k];
      var dev := new Responses.Device();
      var ok := Responses.ParseResponse(packets[k].0, packets[k].1, dev);
      if ok {
        var d := Responses.Shown(dev);
        var dup := IsKnown(devs, d.instance);
        if !dup && |devs| < MAX_DEVICES {
          DistinctAppend(devs, d);
          devs := devs + [d];
        }
      }
    }
    assert packets[..|packets|] == packets;
  }

  /** `key = value` */
  function KeyLine(key: bytes, value: bytes): bytes {
    (key + [SPACE]) + ([EQUALS] + ([SPACE] + value))
  }

  function InQuotes(s: bytes, more: bytes): bytes {
    [DQUOTE] + (s + [DQUOTE] + more)
  }

  /** The comment behind the address, when the host is known. */
  function HostComment(d: Responses.Found): bytes {
    if d.hostname == [] then []
    else Ascii("   # or \"") + d.hostname + Ascii("\" with ") + Ascii("nss-mdns")
  }

  /** The lines of one section, its token line filled in by the user. */
  function SectionLines(d: Responses.Found, token: bytes): seq<bytes> {
    [[], [OPEN] + d.instance + [CLOSE],
     KeyLine(Ascii("host"), InQuotes(d.ip, HostComment(d))), KeyLine(Ascii("port"), Digits(d.port))]
    + ((if d.txt != [] then [[HASH, SPACE] + d.txt] else [])
       + [KeyLine(Ascii("token"), InQuotes(token, []))])
  }

  function Unlines(lines: seq<bytes>): bytes {
    if lines == [] then [] else lines[0] + [LF] + Unlines(lines[1..])
  }

  /** The file: a comment and one section for each device. */
  function Sections(devs: Devices, tokens: seq<bytes>): seq<bytes>
    requires |devs| == |tokens|
  {
    if devs == [] then [] else SectionLines(devs[0], tokens[0]) + Sections(devs[1..], tokens[1..])
  }

  /** A piece of text that fits on a line of the file. */
  ghost predicate OnOneLine(s: bytes) {
    NulFree(s) && LF !in s
  }

  /** The fields as the fixed-size buffers of a parsed device hold them. */
  ghost predicate Bounded(d: Responses.Found) {
    && NulFree(d.instance) && |d.instance| <= 63
    && IsAddress(d.ip)
    && NulFree(d.hostname) && |d.hostname| <= 64
    && NulFree(d.txt) && |d.txt| <= 127
    && d.port < 0x1_0000
  }

  /** Digits and dots, as many as an IPv4 address can have. */
  predicate IsAddress(s: bytes) {
    |s| <= 15 && forall i :: 0 <= i < |s| ==> IsDigit(s[i]) || s[i] == Names.DOT
  }

  /** No newlines, and a token that fits on its line in quotes. */
  ghost predicate Clean(d: Responses.Found, token: bytes) {
    && LF !in d.instance && LF !in d.hostname && LF !in d.txt
    && OnOneLine(token) && |token| <= 1000 && DQUOTE !in token
  }

  ghost predicate Printable(d: Responses.Found, token: bytes) {
    Bounded(d) && Clean(d, token) && OnOneLine(d.ip) && DQUOTE !in d.ip
  }

  lemma AddressIsPlain(s: bytes)
    requires IsAddress(s)
    ensures OnOneLine(s) && DQUOTE !in s
  {
  }

  lemma AddressOfFour(a: bytes)
    requires |a| == 4
    ensures IsAddress(Responses.Ntop(a))
  {
    assert Pow10(3) == 1000;
    DigitsLength(a[0], 3);
    DigitsLength(a[1], 3);
    DigitsLength(a[2], 3);
    DigitsLength(a[3], 3);
  }

  /** What holds of the parser's facts at any time. */
  ghost predicate BoundedFacts(f: Responses.Facts) {
    && NulFree(f.instance) && |f.instance| <= 63 && |f.hostname| == Responses.HOST_CAP
    && |f.txt| <= 127 && f.port < 0x1_0000 && IsAddress(f.aIp)
  }

  lemma LearnKeepsBounds(pkt: bytes, f: Responses.Facts, rr: Responses.Rr)
    requires rr.at + rr.len <= |pkt| && BoundedFacts(f)
    ensures BoundedFacts(Responses.Learn(pkt, f, rr))
  {
    if rr.kind == Responses.TYPE_A && rr.len == 4 {
      AddressOfFour(pkt[rr.at..rr.at + 4]);
    }
  }

  lemma OneMore(pkt: bytes, off: nat, count: nat, f: Responses.Facts, rr: Responses.Rr) returns (g: Responses.Facts)
    requires BoundedFacts(f) && 0 < count && off < |pkt| && Responses.RrAt(pkt, off) == Some(rr)
    ensures BoundedFacts(g)
    ensures Responses.LearnAll(pkt, off, count, f) == Responses.LearnAll(pkt, rr.at + rr.len, count - 1, g)
  {
    g := Responses.Learn(pkt, f, rr);
    LearnKeepsBounds(pkt, f, rr);
    Responses.LearnStep(pkt, off, count, f, rr);
  }

  /** One turn of the parser's loop: what is left of the packet, and the facts by then. */
  lemma OneIsBounded(pkt: bytes, off: nat, count: nat, f: Responses.Facts) returns (next: nat, g: Responses.Facts)
    requires BoundedFacts(f) && 0 < count && off < |pkt| && Responses.RrAt(pkt, off).Some?
    ensures BoundedFacts(g)
    ensures Responses.LearnAll(pkt, off, count, f) == Responses.LearnAll(pkt, next, count - 1, g)
  {
    var rr := Responses.RrAt(pkt, off).value;
    next := rr.at + rr.len;
    g := OneMore(pkt, off, count, f, rr);
  }

  lemma StoppedLearning(pkt: bytes, off: nat, count: nat, f: Responses.Facts)
    requires |f.hostname| == Responses.HOST_CAP
    requires count == 0 || off >= |pkt| || Responses.RrAt(pkt, off).None?
    ensures Responses.LearnAll(pkt, off, count, f) == f
  {
    if count == 0 || off >= |pkt| {
      Responses.LearnEnds(pkt, off, count, f);
    } else {
      Responses.LearnStops(pkt, off, count, f);
    }
  }

  lemma {:induction false} AllLearntIsBounded(pkt: bytes, off: nat, count: nat, f: Responses.Facts)
    requires BoundedFacts(f)
    ensures BoundedFacts(Responses.LearnAll(pkt, off, count, f))
    decreases count
  {
    if count == 0 || off >= |pkt| || Responses.RrAt(pkt, off).None? {
      StoppedLearning(pkt, off, count, f);
    } else {
      var next, g := OneIsBounded(pkt, off, count, f);
      AllLearntIsBounded(pkt, next, count - 1, g);
    }
  }

  lemma ConcludedIsBounded(f: Responses.Facts, src: bytes)
    requires |src| == 4 && BoundedFacts(f)
    ensures Responses.Conclude(f, src).Some? ==> Bounded(Responses.Conclude(f, src).value)
  {
    AddressOfFour(src);
  }

  /** Every parsed device fits its fields, whatever the packet. */
  lemma ParsedIsBounded(pkt: bytes, src: bytes)
    requires |src| == 4
    ensures Responses.Parse(pkt, src).Some? ==> Bounded(Responses.Parse(pkt, src).value)
  {
    if Responses.Parse(pkt, src).Some? {
      var off := Responses.Questions(pkt, Responses.HEADER, Responses.U16(pkt, 4)).value;
      var count := Responses.U16(pkt, 6) + Responses.U16(pkt, 8) + Responses.U16(pkt, 10);
      AllLearntIsBounded(pkt, off, count, Responses.NoFacts());
      ConcludedIsBounded(Responses.LearnAll(pkt, off, count, Responses.NoFacts()), src);
    }
  }

  /** Collected devices are distinct, not too many, and each a parsed one. */
  lemma {:induction false} CollectedIsFine(packets: seq<(bytes, bytes)>)
    requires forall i :: 0 <= i < |packets| ==> |packets[i].1| == 4
    ensures var devs := Collected(packets);
            Distinct(devs) && |devs| <= MAX_DEVICES && forall k :: 0 <= k < |devs| ==> Bounded(devs[k])
    decreases |packets|
  {
    if packets != [] {
      var n := |packets| - 1;
      CollectedIsFine(packets[..n]);
      var devs, r := Collected(packets[..n]), Responses.Parse(packets[n].0, packets[n].1);
      ParsedIsBounded(packets[n].0, packets[n].1);
      if r.Some? && r.value.instance !in Instances(devs) {
        DistinctAppend(devs, r.value);
      }
    }
  }

  /** A file read line by line. */
  function ReadLines(name: bytes, st: Profile, lines: seq<bytes>): Profile
    decreases |lines|
  {
    if lines == [] then st else ReadLines(name, ReadLine(name, st, lines[0]), lines[1..])
  }

  lemma {:induction false} ReadLinesAppend(name: bytes, st: Profile, a: seq<bytes>, b: seq<bytes>)
    ensures ReadLines(name, st, a + b) == ReadLines(name, ReadLines(name, st, a), b)
    decreases |a|
  {
    if a == [] {
      assert a + b == b;
    } else {
      assert (a + b)[1..] == a[1..] + b;
      ReadLinesAppend(name, ReadLine(name, st, a[0]), a[1..], b);
    }
  }

  lemma {:induction false} FgetsTakesLine(line: bytes, rest: bytes, max: nat)
    requires LF !in line && |line| < max
    ensures FgetsLength(line + [LF] + rest, max) == |line| + 1
    decreases |line|
  {
    if line != [] {
      assert (line + [LF] + rest)[1..] == line[1..] + [LF] + rest;
      FgetsTakesLine(line[1..], rest, max - 1);
    }
  }

  lemma RstripNewline(s: bytes)
    ensures Rstrip(s + [LF]) == Rstrip(s)
  {
    assert (s + [LF])[..|s|] == s;
  }

  lemma NewlineIsStripped(name: bytes, st: Profile, line: bytes)
    requires NulFree(line)
    ensures ReadLine(name, st, line + [LF]) == ReadLine(name, st, line)
  {
    CStringOfNulFree(line);
    CStringOfNulFree(line + [LF]);
    RstripNewline(line);
  }

  /** fgets cuts the printed text into its lines again. */
  lemma {:induction false} LinesAreRead(name: bytes, st: Profile, lines: seq<bytes>)
    requires forall k :: 0 <= k < |lines| ==> OnOneLine(lines[k]) && |lines[k]| < LINE_MAX
    ensures ReadAll(name, st, Unlines(lines)) == ReadLines(name, st, lines)
    decreases |lines|
  {
    if lines != [] {
      var rest := Unlines(lines[1..]);
      FgetsTakesLine(lines[0], rest, LINE_MAX);
      var file := lines[0] + [LF] + rest;
      assert file[..|lines[0]| + 1] == lines[0] + [LF] && file[|lines[0]| + 1..] == rest;
      NewlineIsStripped(name, st, lines[0]);
      assert forall k :: 0 <= k < |lines[1..]| ==> lines[1..][k] == lines[k + 1];
      LinesAreRead(name, ReadLine(name, st, lines[0]), lines[1..]);
    }
  }

  lemma {:induction false} BeforeFirst(a: bytes, c: byte, b: bytes)
    requires c !in a
    ensures Before(a + ([c] + b), c) == a
    decreases |a|
  {
    if a == [] {
      assert a + ([c] + b) == [c] + b;
    } else {
      assert (a + ([c] + b))[1..] == a[1..] + ([c] + b);
      BeforeFirst(a[1..], c, b);
    }
  }

  /** A line that neither starts nor ends with white space is taken as it is. */
  lemma Untouched(line: bytes)
    requires NulFree(line) && line != [] && !IsTrailing(line[0]) && !IsTrailing(line[|line| - 1])
    ensures Lstrip(Rstrip(CString(line))) == line
  {
    CStringOfNulFree(line);
  }

  lemma UnquoteInQuotes(s: bytes, more: bytes)
    requires DQUOTE !in s
    ensures Unquote(InQuotes(s, more)) == s
  {
    assert InQuotes(s, more)[1..] == s + ([DQUOTE] + more);
    BeforeFirst(s, DQUOTE, more);
  }

  ghost predicate KeyText(key: bytes) {
    && NulFree(key) && EQUALS !in key && key != []
    && !IsTrailing(key[0]) && !IsTrailing(key[|key| - 1]) && key[0] != HASH && key[0] != OPEN
  }

  lemma RstripKey(key: bytes)
    requires KeyText(key)
    ensures Rstrip(key + [SPACE]) == key
  {
    assert (key + [SPACE])[..|key|] == key;
  }

  lemma KeyLineParts(key: bytes, value: bytes)
    requires KeyText(key) && value != [] && !IsTrailing(value[0])
    ensures var line := KeyLine(key, value);
            && Before(line, EQUALS) == key + [SPACE] && |key| + 2 <= |line|
            && Rstrip(key + [SPACE]) == key && Lstrip(line[|key| + 2..]) == value
  {
    var line := KeyLine(key, value);
    BeforeFirst(key + [SPACE], EQUALS, [SPACE] + value);
    RstripKey(key);
    assert ([EQUALS] + ([SPACE] + value))[1..] == [SPACE] + value;
    assert line[|key| + 2..] == ([EQUALS] + ([SPACE] + value))[1..];
    assert ([SPACE] + value)[1..] == value;
  }

  lemma AssignmentIsRead(name: bytes, st: Profile, line: bytes, k: bytes)
    requires line != [] && Lstrip(Rstrip(CString(line))) == line && line[0] != HASH && line[0] != OPEN
    requires Before(line, EQUALS) == k && |k| < |line|
    ensures ReadLine(name, st, line) == if st.inSection then Assign(st, Rstrip(k), Lstrip(line[|k| + 1..])) else st
  {
  }

  /** An assignment counts within its section only. */
  lemma KeyLineIsRead(name: bytes, st: Profile, key: bytes, value: bytes)
    requires KeyText(key) && NulFree(value) && value != []
    requires !IsTrailing(value[0]) && !IsTrailing(value[|value| - 1])
    ensures ReadLine(name, st, KeyLine(key, value)) == if st.inSection then Assign(st, key, value) else st
  {
    Untouched(KeyLine(key, value));
    KeyLineParts(key, value);
    AssignmentIsRead(name, st, KeyLine(key, value), key + [SPACE]);
  }

  lemma CommentIsSkipped(name: bytes, st: Profile, more: bytes)
    requires NulFree(more)
    ensures ReadLine(name, st, [HASH] + more) == st
  {
    var line := [HASH] + more;
    CStringOfNulFree(line);
    RstripKeepsHead(line);
  }

  lemma {:induction false} RstripKeepsHead(s: bytes)
    requires s != [] && !IsTrailing(s[0])
    ensures Rstrip(s) != [] && Rstrip(s)[0] == s[0]
    decreases |s|
  {
    if IsTrailing(s[|s| - 1]) {
      RstripKeepsHead(s[..|s| - 1]);
    }
  }

  /** The name that the reader takes from the heading printed for a device. */
  function Heading(d: Responses.Found): (name: bytes)
    ensures CLOSE !in name && (CLOSE !in d.instance ==> name == d.instance)
  {
    Before(d.instance, CLOSE)
  }

  lemma HeadingIsRead(name: bytes, st: Profile, section: bytes)
    requires NulFree(section)
    ensures ReadLine(name, st, [OPEN] + section + [CLOSE]) == st.(inSection := Before(section, CLOSE) == name)
  {
    Untouched([OPEN] + section + [CLOSE]);
    HeadingParts(section);
  }

  lemma HeadingParts(section: bytes)
    ensures var e := Before([OPEN] + section + [CLOSE], CLOSE);
            e == [OPEN] + Before(section, CLOSE) && e[1..] == Before(section, CLOSE) && |e| < |section| + 2
  {
    var line := [OPEN] + section + [CLOSE];
    assert line[1..] == section + ([CLOSE] + []);
    BeforeEnds(section, CLOSE);
  }

  lemma {:induction false} BeforeEnds(s: bytes, c: byte)
    ensures Before(s + ([c] + []), c) == Before(s, c)
    decreases |s|
  {
    if s == [] {
      assert s + ([c] + []) == [c];
    } else {
      assert (s + ([c] + []))[1..] == s[1..] + ([c] + []);
      BeforeEnds(s[1..], c);
    }
  }

  lemma EmptyIsSkipped(name: bytes, st: Profile)
    ensures ReadLine(name, st, []) == st
  {
  }

  lemma KeysAreTexts()
    ensures KeyText(Ascii("host")) && KeyText(Ascii("port")) && KeyText(Ascii("token"))
    ensures Ascii("host") != Ascii("port") && Ascii("port") != Ascii("token") && Ascii("host") != Ascii("token")
  {
    assert Ascii("host")[0] == 104 && Ascii("port")[0] == 112 && Ascii("token")[0] == 116;
  }

  lemma CommentEnd(d: Responses.Found)
    requires NulFree(d.hostname)
    ensures var v := InQuotes(d.ip, HostComment(d));
            !IsTrailing(v[|v| - 1]) && v[0] == DQUOTE && (NulFree(d.ip) ==> NulFree(v))
  {
    assert Ascii("nss-mdns")[7] == 115;
  }

  /** What a section does to the profile of a given name. */
  function AfterSection(name: bytes, st: Profile, d: Responses.Found, token: bytes): Profile {
    if Heading(d) == name then Profile(true, Some(d.ip), d.port, Some(token)) else st.(inSection := false)
  }

  lemma HostLineIsRead(name: bytes, st: Profile, d: Responses.Found)
    requires NulFree(d.ip) && NulFree(d.hostname) && DQUOTE !in d.ip
    ensures ReadLine(name, st, KeyLine(Ascii("host"), InQuotes(d.ip, HostComment(d))))
            == if st.inSection then st.(host := Some(d.ip)) else st
  {
    KeysAreTexts();
    CommentEnd(d);
    KeyLineIsRead(name, st, Ascii("host"), InQuotes(d.ip, HostComment(d)));
    UnquoteInQuotes(d.ip, HostComment(d));
  }

  lemma PortLineIsRead(name: bytes, st: Profile, port: nat)
    ensures ReadLine(name, st, KeyLine(Ascii("port"), Digits(port))) == if st.inSection then st.(port := port) else st
  {
    KeysAreTexts();
    KeyLineIsRead(name, st, Ascii("port"), Digits(port));
    PrintedIsRead(port, []);
    assert Digits(port) + [] == Digits(port);
  }

  lemma TokenLineIsRead(name: bytes, st: Profile, token: bytes)
    requires NulFree(token) && DQUOTE !in token
    ensures ReadLine(name, st, KeyLine(Ascii("token"), InQuotes(token, [])))
            == if st.inSection then st.(token := Some(token)) else st
  {
    KeysAreTexts();
    KeyLineIsRead(name, st, Ascii("token"), InQuotes(token, []));
    UnquoteInQuotes(token, []);
  }

  /** The lines behind the port line. */
  function Tail(d: Responses.Found, token: bytes): seq<bytes> {
    (if d.txt != [] then [[HASH, SPACE] + d.txt] else []) + [KeyLine(Ascii("token"), InQuotes(token, []))]
  }

  lemma TailIsRead(name: bytes, st: Profile, d: Responses.Found, token: bytes)
    requires Printable(d, token)
    ensures ReadLines(name, st, Tail(d, token)) == if st.inSection then st.(token := Some(token)) else st
  {
    var last := KeyLine(Ascii("token"), InQuotes(token, []));
    TokenLineIsRead(name, st, token);
    OneLine(name, st, last);
    if d.txt != [] {
      var comment := [HASH, SPACE] + d.txt;
      assert comment == [HASH] + ([SPACE] + d.txt);
      CommentIsSkipped(name, st, [SPACE] + d.txt);
      OneLine(name, st, comment);
      ReadLinesAppend(name, st, [comment], [last]);
    } else {
      assert Tail(d, token) == [last];
    }
  }

  lemma OneLine(name: bytes, st: Profile, line: bytes)
    ensures ReadLines(name, st, [line]) == ReadLine(name, st, line)
  {
    var lines := [line];
    assert lines[1..] == [];
  }

  lemma FourLines(name: bytes, st: Profile, a: bytes, b: bytes, c: bytes, d: bytes)
    ensures ReadLines(name, st, [a, b, c, d])
            == ReadLine(name, ReadLine(name, ReadLine(name, ReadLine(name, st, a), b), c), d)
  {
    OneLine(name, st, a);
    var s1 := ReadLine(name, st, a);
    OneLine(name, s1, b);
    var s2 := ReadLine(name, s1, b);
    OneLine(name, s2, c);
    var s3 := ReadLine(name, s2, c);
    OneLine(name, s3, d);
    assert [a, b, c, d] == [a] + ([b] + ([c] + [d]));
    ReadLinesAppend(name, st, [a], [b] + ([c] + [d]));
    ReadLinesAppend(name, s1, [b], [c] + [d]);
    ReadLinesAppend(name, s2, [c], [d]);
  }

  lemma SectionIsRead(name: bytes, st: Profile, d: Responses.Found, token: bytes)
    requires Printable(d, token)
    ensures ReadLines(name, st, SectionLines(d, token)) == AfterSection(name, st, d, token)
  {
    var head := [[], [OPEN] + d.instance + [CLOSE],
                 KeyLine(Ascii("host"), InQuotes(d.ip, HostComment(d))), KeyLine(Ascii("port"), Digits(d.port))];
    assert SectionLines(d, token) == head + Tail(d, token);
    EmptyIsSkipped(name, st);
    HeadingIsRead(name, st, d.instance);
    var s1 := st.(inSection := Heading(d) == name);
    HostLineIsRead(name, s1, d);
    var s2 := if s1.inSection then s1.(host := Some(d.ip)) else s1;
    PortLineIsRead(name, s2, d.port);
    var s3 := if s2.inSection then s2.(port := d.port) else s2;
    FourLines(name, st, head[0], head[1], head[2], head[3]);
    assert ReadLines(name, st, head) == s3;
    ReadLinesAppend(name, st, head, Tail(d, token));
    TailIsRead(name, s3, d, token);
  }

  ghost predicate AllPrintable(devs: Devices, tokens: seq<bytes>)
    requires |devs| == |tokens|
  {
    forall k :: 0 <= k < |devs| ==> Printable(devs[k], tokens[k])
  }

  /** The last device whose printed heading reads as this name. */
  function LastOf(name: bytes, devs: Devices): (r: Option<nat>)
    ensures r.Some? ==> r.value < |devs| && Heading(devs[r.value]) == name
    ensures forall j :: (if r.None? then 0 else r.value + 1) <= j < |devs| ==> Heading(devs[j]) != name
  {
    if devs == [] then None else
    var n := |devs| - 1;
    if Heading(devs[n]) == name then Some(n) else LastOf(name, devs[..n])
  }

  /** What the sections do to the profile of a given name: the last of them decides. */
  function AfterSections(name: bytes, st: Profile, devs: Devices, tokens: seq<bytes>): Profile
    requires |devs| == |tokens|
  {
    if devs == [] then st else
    var n := |devs| - 1;
    AfterSection(name, AfterSections(name, st, devs[..n], tokens[..n]), devs[n], tokens[n])
  }

  lemma {:induction false} SectionsAppend(devs: Devices, tokens: seq<bytes>, d: Responses.Found, token: bytes)
    requires |devs| == |tokens|
    ensures Sections(devs + [d], tokens + [token]) == Sections(devs, tokens) + SectionLines(d, token)
    decreases |devs|
  {
    var all, allTokens := devs + [d], tokens + [token];
    if devs == [] {
      assert all[1..] == [] && allTokens[1..] == [];
      assert [] + SectionLines(d, token) == SectionLines(d, token) + [];
    } else {
      assert all[1..] == devs[1..] + [d] && allTokens[1..] == tokens[1..] + [token];
      SectionsAppend(devs[1..], tokens[1..], d, token);
      assert Sections(all, allTokens)
             == SectionLines(devs[0], tokens[0]) + (Sections(devs[1..], tokens[1..]) + SectionLines(d, token));
    }
  }

  lemma {:induction false} SectionsAreRead(name: bytes, st: Profile, devs: Devices, tokens: seq<bytes>)
    requires |devs| == |tokens| && AllPrintable(devs, tokens)
    ensures ReadLines(name, st, Sections(devs, tokens)) == AfterSections(name, st, devs, tokens)
    decreases |devs|
  {
    if devs != [] {
      var n := |devs| - 1;
      assert devs == devs[..n] + [devs[n]] && tokens == tokens[..n] + [tokens[n]];
      SectionsAppend(devs[..n], tokens[..n], devs[n], tokens[n]);
      ReadLinesAppend(name, st, Sections(devs[..n], tokens[..n]), SectionLines(devs[n], tokens[n]));
      SectionsAreRead(name, st, devs[..n], tokens[..n]);
      SectionIsRead(name, AfterSections(name, st, devs[..n], tokens[..n]), devs[n], tokens[n]);
    }
  }

  lemma {:induction false} LastDecides(name: bytes, st: Profile, devs: Devices, tokens: seq<bytes>)
    requires |devs| == |tokens|
    ensures var p, last := AfterSections(name, st, devs, tokens), LastOf(name, devs);
            if last.None? then p == st.(inSection := p.inSection)
            else
              var k := last.value;
              p.host == Some(devs[k].ip) && p.port == devs[k].port && p.token == Some(tokens[k])
    decreases |devs|
  {
    if devs != [] {
      var n := |devs| - 1;
      LastDecides(name, st, devs[..n], tokens[..n]);
    }
  }

  ghost predicate Fits(line: bytes, max: nat) {
    OnOneLine(line) && |line| <= max
  }

  lemma FitsTogether(a: bytes, m: nat, b: bytes, n: nat)
    requires Fits(a, m) && Fits(b, n)
    ensures Fits(a + b, m + n)
  {
  }

  lemma QuotesFit(s: bytes, m: nat, more: bytes, n: nat)
    requires Fits(s, m) && Fits(more, n)
    ensures Fits(InQuotes(s, more), m + n + 2)
  {
    FitsTogether(s, m, [DQUOTE], 1);
    FitsTogether(s + [DQUOTE], m + 1, more, n);
    FitsTogether([DQUOTE], 1, s + [DQUOTE] + more, m + n + 1);
  }

  lemma KeyLineFits(key: bytes, value: bytes, n: nat)
    requires Fits(key, 5) && Fits(value, n)
    ensures Fits(KeyLine(key, value), n + 8)
  {
    FitsTogether(key, 5, [SPACE], 1);
    FitsTogether([SPACE], 1, value, n);
    FitsTogether([EQUALS], 1, [SPACE] + value, n + 1);
    FitsTogether(key + [SPACE], 6, [EQUALS] + ([SPACE] + value), n + 2);
  }

  lemma HostCommentFits(d: Responses.Found)
    requires OnOneLine(d.hostname) && |d.hostname| <= 64
    ensures Fits(HostComment(d), 88)
  {
    if d.hostname != [] {
      assert Fits(Ascii("   # or \""), 9) && Fits(Ascii("\" with "), 7) && Fits(Ascii("nss-mdns"), 8);
      FitsTogether(Ascii("   # or \""), 9, d.hostname, 64);
      FitsTogether(Ascii("   # or \"") + d.hostname, 73, Ascii("\" with "), 7);
      FitsTogether(Ascii("   # or \"") + d.hostname + Ascii("\" with "), 80, Ascii("nss-mdns"), 8);
    }
  }

  lemma DigitsFit(n: nat)
    requires n < 0x1_0000
    ensures Fits(Digits(n), 5)
  {
    assert Pow10(5) == 100000;
    DigitsLength(n, 5);
  }

  lemma KeysFit()
    ensures Fits(Ascii("host"), 5) && Fits(Ascii("port"), 5) && Fits(Ascii("token"), 5)
  {
  }

  ghost predicate AllFit(lines: seq<bytes>) {
    forall k :: 0 <= k < |lines| ==> Fits(lines[k], LINE_MAX - 1)
  }

  lemma AllFitTogether(a: seq<bytes>, b: seq<bytes>)
    requires AllFit(a) && AllFit(b)
    ensures AllFit(a + b)
  {
  }

  lemma SectionFits(d: Responses.Found, token: bytes)
    requires Printable(d, token)
    ensures AllFit(SectionLines(d, token))
  {
    KeysFit();
    HostCommentFits(d);
    QuotesFit(d.ip, 15, HostComment(d), 88);
    KeyLineFits(Ascii("host"), InQuotes(d.ip, HostComment(d)), 105);
    DigitsFit(d.port);
    KeyLineFits(Ascii("port"), Digits(d.port), 5);
    QuotesFit(token, 1000, [], 0);
    KeyLineFits(Ascii("token"), InQuotes(token, []), 1002);
    FitsTogether([OPEN], 1, d.instance, 63);
    FitsTogether([OPEN] + d.instance, 64, [CLOSE], 1);
    FitsTogether([HASH, SPACE], 2, d.txt, 127);
    var head := [[], [OPEN] + d.instance + [CLOSE],
                 KeyLine(Ascii("host"), InQuotes(d.ip, HostComment(d))), KeyLine(Ascii("port"), Digits(d.port))];
    assert AllFit(head);
    assert AllFit(Tail(d, token));
    AllFitTogether(head, Tail(d, token));
    assert SectionLines(d, token) == head + Tail(d, token);
  }

  lemma {:induction false} SectionsFit(devs: Devices, tokens: seq<bytes>)
    requires |devs| == |tokens| && AllPrintable(devs, tokens)
    ensures AllFit(Sections(devs, tokens))
    decreases |devs|
  {
    if devs != [] {
      SectionFits(devs[0], tokens[0]);
      SectionsFit(devs[1..], tokens[1..]);
      AllFitTogether(SectionLines(devs[0], tokens[0]), Sections(devs[1..], tokens[1..]));
    }
  }

  /** The file that a user pastes together: a comment, then the printed sections with
      the token lines filled in. */
  function Pasted(comment: bytes, devs: Devices, tokens: seq<bytes>): bytes
    requires |devs| == |tokens|
  {
    Unlines([[HASH] + comment] + Sections(devs, tokens))
  }

  /** From discovery to profile, for any name: what loads is the address, port and token
      of the last device whose heading reads as that name, and nothing if there is none. */
  lemma LastHeadingLoads(devs: Devices, tokens: seq<bytes>, comment: bytes, name: bytes)
    requires |devs| == |tokens| && AllPrintable(devs, tokens) && Fits(comment, 500)
    ensures LoadProfile(name, Pasted(comment, devs, tokens)) ==
            match LastOf(name, devs)
            case None => None
            case Some(k) => Some(Loaded(devs[k].ip, devs[k].port, tokens[k]))
  {
    var first := [HASH] + comment;
    var lines := [first] + Sections(devs, tokens);
    SectionsFit(devs, tokens);
    FitsTogether([HASH], 1, comment, 500);
    assert AllFit([first]);
    AllFitTogether([first], Sections(devs, tokens));
    LinesAreRead(name, NO_PROFILE, lines);
    CommentIsSkipped(name, NO_PROFILE, comment);
    OneLine(name, NO_PROFILE, first);
    ReadLinesAppend(name, NO_PROFILE, [first], Sections(devs, tokens));
    SectionsAreRead(name, NO_PROFILE, devs, tokens);
    LastDecides(name, NO_PROFILE, devs, tokens);
  }

  /** When does a printed name load its own device, if each has a token of its own?
      Exactly when it holds no `]` and no later name is the same up to a `]`. */
  lemma OwnDeviceLoads(devs: Devices, tokens: seq<bytes>, comment: bytes, i: nat)
    requires |devs| == |tokens| && AllPrintable(devs, tokens) && Fits(comment, 500) && i < |devs|
    requires forall k :: 0 <= k < |tokens| && k != i ==> tokens[k] != tokens[i]
    ensures LoadProfile(devs[i].instance, Pasted(comment, devs, tokens))
            == Some(Loaded(devs[i].ip, devs[i].port, tokens[i]))
            <==> CLOSE !in devs[i].instance && forall j :: i < j < |devs| ==> Heading(devs[j]) != devs[i].instance
  {
    LastHeadingLoads(devs, tokens, comment, devs[i].instance);
  }

  /** A device can take over the name of another: loading `b` gives the address, port and
      token of `b]x`. */
  lemma BracketTakesOver(devs: Devices, tokens: seq<bytes>, comment: bytes)
    requires |devs| == |tokens| == 2 && AllPrintable(devs, tokens) && Fits(comment, 500)
    requires devs[0].instance == [98] && devs[1].instance == [98, CLOSE, 120]
    ensures Distinct(devs)
    ensures LoadProfile(devs[0].instance, Pasted(comment, devs, tokens))
            == Some(Loaded(devs[1].ip, devs[1].port, tokens[1]))
  {
    assert devs[1].instance == [98] + ([CLOSE] + [120]);
    BeforeFirst([98], CLOSE, [120]);
    LastHeadingLoads(devs, tokens, comment, devs[0].instance);
  }

  /** The same from packets, for whatever packets come in and any name, if only no
      printed field holds a newline. */
  lemma DiscoveryRoundTrip(packets: seq<(bytes, bytes)>, tokens: seq<bytes>, comment: bytes, name: bytes)
    requires forall k :: 0 <= k < |packets| ==> |packets[k].1| == 4
    requires |tokens| == |Collected(packets)| && Fits(comment, 500)
    requires forall k :: 0 <= k < |tokens| ==> Clean(Collected(packets)[k], tokens[k])
    ensures var devs := Collected(packets);
            LoadProfile(name, Pasted(comment, devs, tokens)) ==
            match LastOf(name, devs)
            case None => None
            case Some(k) => Some(Loaded(devs[k].ip, devs[k].port, tokens[k]))
  {
    CollectedIsFine(packets);
    var devs := Collected(packets);
    forall k | 0 <= k < |devs|
      ensures Printable(devs[k], tokens[k])
    {
      AddressIsPlain(devs[k].ip);
    }
    LastHeadingLoads(devs, tokens, comment, name);
  }
}
