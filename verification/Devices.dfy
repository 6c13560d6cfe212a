/** Which device an answer describes, told by the bytes of its names and addresses. */
module Devices {
  import opened Bytes
  import opened Decimal
  import opened Names
  import opened Packets
  import opened Records
  import opened Responses
  import opened Wire

  lemma DottedAppend(labels: seq<bytes>, last: bytes)
    ensures Dotted(labels + [last]) == if labels == [] then last else Dotted(labels) + ([46] + last)
  {
    var all := labels + [last];
    assert all[..|all| - 1] == labels && all[|all| - 1] == last;
    if labels != [] {
      Regroup(Dotted(labels), [46], last);
    }
  }

  /** The labels from the front: a dot stands between neighbours and nowhere else. */
  lemma {:induction false} DottedFromFront(first: bytes, rest: seq<bytes>)
    ensures Dotted([first] + rest) == if rest == [] then first else first + [46] + Dotted(rest)
    decreases |rest|
  {
    hide Dotted;
    if rest == [] {
      DottedAppend([], first);
      assert [first] + rest == [] + [first];
    } else {
      var n := |rest| - 1;
      var front, last := rest[..n], rest[n];
      assert rest == front + [last] && [first] + rest == ([first] + front) + [last];
      DottedFromFront(first, front);
      DottedAppend(front, last);
      DottedAppend([first] + front, last);
      if n > 0 {
        Regroup(first + [46], Dotted(front), [46] + last);
      }
    }
  }

  ghost predicate IsLabel(lab: bytes) {
    0 < |lab| <= 63 && forall i :: 0 <= i < |lab| ==> lab[i] != 0 && lab[i] != 46
  }

  lemma {:induction false} UpToFirstDot(a: bytes, rest: bytes)
    requires forall i :: 0 <= i < |a| ==> a[i] != 46
    requires rest == [] || rest[0] == 46
    ensures UpToDot(a + rest) == a
    decreases |a|
  {
    if a == [] {
      assert a + rest == rest;
    } else {
      assert (a + rest)[0] == a[0] && (a + rest)[1..] == a[1..] + rest;
      UpToFirstDot(a[1..], rest);
    }
  }

  lemma {:induction false} CStringKeeps(a: bytes, rest: bytes)
    requires NulFree(a)
    ensures CString(a + rest) == a + CString(rest)
    decreases |a|
  {
    if a == [] {
      assert a + rest == rest;
    } else {
      assert (a + rest)[0] == a[0] && (a + rest)[1..] == a[1..] + rest;
      CStringKeeps(a[1..], rest);
    }
  }

  /** Up to its first dot a name reads as its first label. */
  lemma FirstLabel(lab: bytes, rest: seq<bytes>)
    requires IsLabel(lab)
    ensures Truncated(UpToDot(NameText([lab] + rest, NAME_CAP)), 63) == lab
  {
    var all := Dotted([lab] + rest);
    DottedFromFront(lab, rest);
    var m := Fit([lab] + rest, NAME_CAP);
    var behind := all[..m][|lab|..];
    assert all[..|lab|] == lab;
    assert all[..m] == lab + behind;
    CStringKeeps(lab, behind);
    if behind != [] {
      assert behind[0] == all[|lab|] == 46;
    }
    assert CString(behind) == [] || CString(behind)[0] == 46;
    UpToFirstDot(lab, CString(behind));
  }

  /** The instance is decided by the last pointer record of the service. */
  ghost predicate LastPointer(recs: seq<Record>, k: nat) {
    && k < |recs| && recs[k].Ptr? && recs[k].Ours()
    && forall j :: k < j < |recs| ==> !(recs[j].Ptr? && recs[j].Ours())
  }

  lemma {:induction false} NoPointerKeeps(s: Seen, recs: seq<Record>)
    requires forall j :: 0 <= j < |recs| ==> !(recs[j].Ptr? && recs[j].Ours())
    ensures NoticeAll(s, recs).found == s.found && NoticeAll(s, recs).instance == s.instance
    decreases |recs|
  {
    if recs != [] {
      assert forall j :: 0 <= j < |recs| - 1 ==> recs[1..][j] == recs[j + 1];
      NoPointerKeeps(Notice(s, recs[0]), recs[1..]);
    }
  }

  lemma {:induction false} PointerDecides(s: Seen, recs: seq<Record>, k: nat)
    requires LastPointer(recs, k)
    ensures var n := NoticeAll(s, recs);
            n.found && n.instance == Truncated(UpToDot(NameText(recs[k].target, NAME_CAP)), 63)
    decreases |recs|
  {
    assert forall j :: 0 <= j < |recs| - 1 ==> recs[1..][j] == recs[j + 1];
    if k == 0 {
      NoPointerKeeps(Notice(s, recs[0]), recs[1..]);
    } else {
      PointerDecides(Notice(s, recs[0]), recs[1..], k - 1);
    }
  }

  /** The instance of a described device is the first label that the last pointer record
      of the service leads to. */
  lemma InstanceIsFirstLabel(recs: seq<Record>, k: nat, lab: bytes, rest: seq<bytes>, src: bytes)
    requires |src| == 4 && LastPointer(recs, k) && recs[k].target == [lab] + rest && IsLabel(lab)
    ensures var d := Describe(NoticeAll(NOTHING, recs), src); d.Some? && d.value.instance == lab
  {
    PointerDecides(NOTHING, recs, k);
    FirstLabel(lab, rest);
  }

  /** A pointer record without a name makes the device `espshell`. */
  lemma NamelessIsEspshell(recs: seq<Record>, k: nat, src: bytes)
    requires |src| == 4 && LastPointer(recs, k) && recs[k].target == []
    ensures var d := Describe(NoticeAll(NOTHING, recs), src);
            d.Some? && d.value.instance == [101, 115, 112, 115, 104, 101, 108, 108]
  {
    PointerDecides(NOTHING, recs, k);
    assert Ascii("espshell") == [101, 115, 112, 115, 104, 101, 108, 108];
  }

  /** A number below 1000 as its decimal digits show it. */
  ghost predicate Shows(d: bytes, v: nat) {
    && 1 <= |d| <= 3 && (forall i :: 0 <= i < |d| ==> 48 <= d[i] <= 57) && (|d| > 1 ==> d[0] != 48)
    && var a: int, b: int, c: int := d[0], if |d| > 1 then d[1] else 0, if |d| > 2 then d[2] else 0;
       v == if |d| == 1 then a - 48
            else if |d| == 2 then 10 * (a - 48) + (b - 48)
            else 100 * (a - 48) + 10 * (b - 48) + (c - 48)
  }

  lemma DigitsShow(v: nat)
    requires v < 1000
    ensures Shows(Digits(v), v)
  {
    if v >= 10 {
      assert Digits(v) == Digits(v / 10) + [48 + v % 10];
      if v >= 100 {
        assert Digits(v / 10) == Digits(v / 100) + [48 + v / 10 % 10];
        assert Digits(v / 100) == [48 + v / 100];
      }
    }
  }

  /** An address is printed as its four bytes, in order, with dots between them. */
  lemma AddressIsShown(a: bytes) returns (d0: bytes, d1: bytes, d2: bytes, d3: bytes)
    requires |a| == 4
    ensures Ntop(a) == d0 + [46] + d1 + [46] + d2 + [46] + d3
    ensures Shows(d0, a[0]) && Shows(d1, a[1]) && Shows(d2, a[2]) && Shows(d3, a[3])
  {
    d0, d1, d2, d3 := Digits(a[0]), Digits(a[1]), Digits(a[2]), Digits(a[3]);
    DigitsShow(a[0]);
    DigitsShow(a[1]);
    DigitsShow(a[2]);
    DigitsShow(a[3]);
  }

  /** `_espshell`, `_tcp` and `local`. */
  function ServiceLabels(): seq<bytes> {
    [[95, 101, 115, 112, 115, 104, 101, 108, 108], [95, 116, 99, 112], [108, 111, 99, 97, 108]]
  }

  lemma ServiceText()
    ensures Dotted(ServiceLabels()) == Service() + [46] + ServiceLabels()[2]
    ensures NulFree(Dotted(ServiceLabels())) && |Dotted(ServiceLabels())| == 20
  {
    var l := ServiceLabels();
    assert l[..2] == [l[0], l[1]] && l[..2][..1] == [l[0]];
    assert Dotted(l[..2]) == l[0] + [46] + l[1];
    assert Service() == Ascii("_espshell._tcp");
    assert Service() == l[0] + [46] + l[1];
  }

  lemma TextOfName(labels: seq<bytes>, cap: nat)
    requires |Dotted(labels)| < cap && NulFree(Dotted(labels))
    ensures NameText(labels, cap) == Dotted(labels)
  {
    var d := Dotted(labels);
    assert d[..|d|] == d;
    CStringOfNulFree(d);
  }

  /** The service itself, and any instance of it, is recognised by its name. */
  lemma ServiceIsRecognised(lab: bytes)
    requires IsLabel(lab)
    ensures Contains(NameText(ServiceLabels(), NAME_CAP), Service())
    ensures Contains(NameText([lab] + ServiceLabels(), NAME_CAP), Service())
  {
    ServiceText();
    DottedFromFront(lab, ServiceLabels());
    var d, e := Dotted(ServiceLabels()), Dotted([lab] + ServiceLabels());
    assert e == lab + [46] + d;
    TextOfName(ServiceLabels(), NAME_CAP);
    TextOfName([lab] + ServiceLabels(), NAME_CAP);
    assert Occurs(d, 0, Service());
    assert Occurs(e, |lab| + 1, Service());
    ContainsFindsEveryPlace(d, Service());
    ContainsFindsEveryPlace(e, Service());
  }

  /** The records that a device answers with. */
  function Answer(lab: bytes, host: seq<bytes>, port: nat, strings: seq<bytes>, owner: seq<bytes>, ip: bytes)
    : seq<Record>
  {
    [Ptr(ServiceLabels(), [lab] + ServiceLabels()), Srv([lab] + ServiceLabels(), port, host),
     Txt([lab] + ServiceLabels(), strings), Addr(owner, ip)]
  }

  lemma FourRecords(s: Seen, a: Record, b: Record, c: Record, d: Record)
    ensures NoticeAll(s, [a, b, c, d]) == Notice(Notice(Notice(Notice(s, a), b), c), d)
  {
    hide Notice;
    assert [a, b, c, d][1..] == [b, c, d] && [b, c, d][1..] == [c, d] && [c, d][1..] == [d] && [d][1..] == [];
    NoticeFirst(s, [a, b, c, d]);
    NoticeFirst(Notice(s, a), [b, c, d]);
    NoticeFirst(Notice(Notice(s, a), b), [c, d]);
    NoticeFirst(Notice(Notice(Notice(s, a), b), c), [d]);
  }

  ghost predicate IsHost(labels: seq<bytes>) {
    0 < |Dotted(labels)| <= 63 && NulFree(Dotted(labels))
  }

  lemma PointerIsNoticed(s: Seen, lab: bytes)
    requires IsLabel(lab)
    ensures Notice(s, Ptr(ServiceLabels(), [lab] + ServiceLabels())) == s.(found := true, instance := lab)
  {
    ServiceIsRecognised(lab);
    FirstLabel(lab, ServiceLabels());
  }

  lemma ServiceIsNoticed(s: Seen, lab: bytes, port: nat, host: seq<bytes>)
    requires IsLabel(lab) && IsHost(host)
    ensures Notice(s, Srv([lab] + ServiceLabels(), port, host)) == s.(port := port, host := Dotted(host))
  {
    ServiceIsRecognised(lab);
    TextOfName(host, HOST_CAP);
  }

  lemma TextIsNoticed(s: Seen, lab: bytes, strings: seq<bytes>)
    requires IsLabel(lab)
    ensures Notice(s, Txt([lab] + ServiceLabels(), strings)) == s.(txt := Truncated(Join(strings), 127))
  {
    ServiceIsRecognised(lab);
  }

  lemma AddressIsNoticed(s: Seen, owner: seq<bytes>, ip: bytes)
    requires IsHost(owner) && |ip| == 4
    ensures Notice(s, Addr(owner, ip)) == s.(aHost := Dotted(owner), aIp := Ntop(ip)) && Ntop(ip) != []
  {
    TextOfName(owner, NAME_CAP);
    assert Truncated(Dotted(owner), 63) == Dotted(owner);
  }

  /** What a device answers is what discovery finds: its label, its host name, its port or
      9000, and the address of its record if that is of the same host, else the packet's. */
  lemma AnswerIsFound(
    lab: bytes, host: seq<bytes>, port: nat, strings: seq<bytes>, owner: seq<bytes>, ip: bytes, src: bytes)
    requires IsLabel(lab) && IsHost(host) && IsHost(owner) && |ip| == 4 && |src| == 4
    ensures var text := Truncated(Join(strings), 127);
            Describe(NoticeAll(NOTHING, Answer(lab, host, port, strings, owner, ip)), src) ==
            Some(Found(lab, Dotted(host), Ntop(if Dotted(owner) == Dotted(host) then ip else src),
                       if port == 0 then 9000 else port, CString(text)))
  {
    hide Notice, Ntop, Dotted, Truncated, Join, CString;
    var recs := Answer(lab, host, port, strings, owner, ip);
    var s1 := NOTHING.(found := true, instance := lab);
    var s2 := s1.(port := port, host := Dotted(host));
    var s3 := s2.(txt := Truncated(Join(strings), 127));
    FourRecords(NOTHING, recs[0], recs[1], recs[2], recs[3]);
    PointerIsNoticed(NOTHING, lab);
    ServiceIsNoticed(s1, lab, port, host);
    TextIsNoticed(s2, lab, strings);
    AddressIsNoticed(s3, owner, ip);
  }
}
