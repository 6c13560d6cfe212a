/** DNS name expansion with compression pointers: name_read of
    tools/esp-ctl/src/discover.c, and sections 3.1 and 4.1.4 of RFC 1035. */
module Names {
  import opened Bytes

  const DOT: byte := 46
  const LINK_MARK: int := 0xC0
  const MAX_HOPS := 16

  /** What following a stored name yields: whether it ends properly, the labels
      met until then, and the offset just past the stored form. */
  datatype Walk = Walk(ok: bool, labels: seq<bytes>, end: nat)

  /** Where the compression pointer at `o` leads. */
  function Target(pkt: bytes, o: nat): nat
    requires o + 1 < |pkt|
  {
    var high: int := pkt[o] % 64;
    high * 256 + pkt[o + 1]
  }

  /** Follows the name at `o` after `hops` pointers: the pointers left, and then
      the bytes left, decrease. */
  function Expand(pkt: bytes, o: nat, hops: nat): (r: Walk)
    ensures r.ok ==> o < r.end <= |pkt|
    decreases MAX_HOPS - hops, |pkt| - o
  {
    if o >= |pkt| then
      Walk(false, [], 0)
    else if pkt[o] == 0 then
      Walk(true, [], o + 1)
    else if pkt[o] >= LINK_MARK then
      if o + 1 >= |pkt| || hops >= MAX_HOPS then
        Walk(false, [], 0)
      else
        var r := Expand(pkt, Target(pkt, o), hops + 1);
        Walk(r.ok, r.labels, if r.ok then o + 2 else 0)
    else if o + 1 + pkt[o] > |pkt| then
      Walk(false, [], 0)
    else
      var r := Expand(pkt, o + 1 + pkt[o], hops);
      Walk(r.ok, [pkt[o + 1..o + 1 + pkt[o]]] + r.labels, r.end)
  }

  /** Labels with a dot between neighbours. */
  function Dotted(labels: seq<bytes>): bytes {
    if labels == [] then []
    else if |labels| == 1 then labels[0]
    else Dotted(labels[..|labels| - 1]) + [DOT] + labels[|labels| - 1]
  }

  /** Did a dot land on the last byte of the buffer? It does when a label begins
      although the earlier ones already fill all of it but that byte. */
  predicate Spilled(labels: seq<bytes>, cap: nat) {
    1 < cap && 2 <= |labels| && cap - 1 <= |Dotted(labels[..|labels| - 1])|
  }

  /** How much of the dotted name fits in front of the terminator. */
  function Fit(labels: seq<bytes>, cap: nat): (m: nat)
    requires 0 < cap
  {
    Min(|Dotted(labels)|, cap - 1)
  }

  /** The output buffer after labels have been written to it. */
  function Written(before: bytes, labels: seq<bytes>): (b: bytes)
    requires before != []
    ensures |b| == |before|
  {
    var m := Fit(labels, |before|);
    Dotted(labels)[..m] + [if Spilled(labels, |before|) then DOT else before[m]] + before[m + 1..]
  }

  /** The output buffer when name_read returns. */
  function Result(before: bytes, r: Walk): (b: bytes)
    requires before != []
    ensures |b| == |before|
  {
    if r.ok then Written(before, r.labels)[Fit(r.labels, |before|) := 0] else Written(before, r.labels)
  }

  /** What a name buffer of `cap` bytes shows of the labels as a C string. */
  function NameText(labels: seq<bytes>, cap: nat): bytes
    requires 0 < cap
  {
    CString(Dotted(labels)[..Fit(labels, cap)])
  }

  /** On success the buffer holds the dotted name, cut to what fits, as a C string. */
  lemma ResultIsString(before: bytes, r: Walk)
    requires before != [] && r.ok
    ensures var m := Fit(r.labels, |before|);
            Result(before, r) == Dotted(r.labels)[..m] + [0] + before[m + 1..]
    ensures CString(Result(before, r)) == NameText(r.labels, |before|)
  {
    var m := Fit(r.labels, |before|);
    assert Result(before, r) == Dotted(r.labels)[..m] + [0] + before[m + 1..];
    CStringStops(Dotted(r.labels)[..m], before[m + 1..]);
  }

  /** `w` bytes of the buffer have been written; they spell out the labels. */
  ghost predicate Filled(b: bytes, before: bytes, labels: seq<bytes>, w: nat) {
    && |b| == |before| && before != []
    && w == (if Spilled(labels, |b|) then |b| else Fit(labels, |b|))
    && (forall i :: 0 <= i < Fit(labels, |b|) ==> b[i] == Dotted(labels)[i])
    && (Spilled(labels, |b|) ==> b[|b| - 1] == DOT)
    && (forall i :: w <= i < |b| ==> b[i] == before[i])
  }

  lemma FilledIsWritten(b: bytes, before: bytes, labels: seq<bytes>, w: nat)
    requires Filled(b, before, labels, w)
    ensures b == Written(before, labels)
  {
  }

  ghost predicate NonEmpty(labels: seq<bytes>) {
    forall k :: 0 <= k < |labels| ==> labels[k] != []
  }

  /** The byte-wise copy of one label, which stops short of the terminator's place. */
  method CopyLabel(out: array<byte>, w0: nat, lab: bytes) returns (w: nat)
    requires 0 < out.Length && w0 <= out.Length
    modifies out
    ensures w == if w0 >= out.Length - 1 then w0 else Min(w0 + |lab|, out.Length - 1)
    ensures forall i :: w0 <= i < w ==> out[i] == lab[i - w0]
    ensures forall i :: 0 <= i < out.Length && !(w0 <= i < w) ==> out[i] == old(out[i])
  {
    w := w0;
    for i := 0 to |lab|
      invariant w == if w0 >= out.Length - 1 then w0 else Min(w0 + i, out.Length - 1)
      invariant forall k :: w0 <= k < w ==> out[k] == lab[k - w0]
      invariant forall k :: 0 <= k < out.Length && !(w0 <= k < w) ==> out[k] == old(out[k])
    {
      if w < out.Length - 1 {
        out[w] := lab[i];
        w := w + 1;
      }
    }
  }

  /** Appends one label, with a dot in front unless it is the first. */
  method PutLabel(out: array<byte>, w0: nat, lab: bytes, ghost before: bytes, ghost labels: seq<bytes>) returns (w: nat)
    requires Filled(out[..], before, labels, w0) && NonEmpty(labels) && lab != []
    modifies out
    ensures Filled(out[..], before, labels + [lab], w)
  {
    ghost var d, cap, all := Dotted(labels), out.Length, labels + [lab];
    assert all[..|all| - 1] == labels;
    assert labels != [] ==> d != [] && Dotted(all) == d + [DOT] + lab by {
      if labels != [] {
        assert labels[|labels| - 1] != [];
      }
    }
    w := w0;
    if w != 0 && w < out.Length {
      out[w] := DOT;
      w := w + 1;
    }
    w := CopyLabel(out, w, lab);
  }

  method Terminate(out: array<byte>, w: nat, ghost before: bytes, ghost labels: seq<bytes>)
    requires Filled(out[..], before, labels, w)
    modifies out
    ensures out[..] == Written(before, labels)[Fit(labels, out.Length) := 0]
  {
    FilledIsWritten(out[..], before, labels, w);
    if w < out.Length {
      out[w] := 0;
    } else {
      out[out.Length - 1] := 0;
    }
  }

  /** The whole walk consists of the labels read already and the walk ahead; `end`
      is known once a pointer has been followed. */
  ghost predicate Ahead(whole: Walk, labels: seq<bytes>, end: int, ahead: Walk) {
    && whole.ok == ahead.ok
    && whole.labels == labels + ahead.labels
    && (ahead.labels == [] ==> whole.labels == labels)
    && (whole.ok ==> whole.end == if end >= 0 then end else ahead.end)
  }

  lemma AheadLabel(whole: Walk, labels: seq<bytes>, end: int, lab: bytes, next: Walk)
    requires Ahead(whole, labels, end, Walk(next.ok, [lab] + next.labels, next.end))
    ensures Ahead(whole, labels + [lab], end, next)
  {
    Regroup(labels, [lab], next.labels);
  }

  /** name_read: expands the name at `off` into `out`; the offset just past the
      stored name, or -1. */
  method NameRead(pkt: bytes, off: nat, out: array<byte>) returns (r: int)
    requires 0 < out.Length
    modifies out
    ensures r == if Expand(pkt, off, 0).ok then Expand(pkt, off, 0).end else -1
    ensures out[..] == Result(old(out[..]), Expand(pkt, off, 0))
    ensures r != -1 ==> off < r <= |pkt|
  {
    ghost var before, whole, labels := out[..], Expand(pkt, off, 0), [];
    var o: nat, w: nat, end, hops: nat := off, 0, -1, 0;
    while o < |pkt|
      invariant hops <= MAX_HOPS && NonEmpty(labels)
      invariant Filled(out[..], before, labels, w)
      invariant Ahead(whole, labels, end, Expand(pkt, o, hops))
      decreases MAX_HOPS - hops, if o < |pkt| then |pkt| - o else 0
    {
      var l: int := pkt[o];
      if l == 0 {
        Terminate(out, w, before, labels);
        return if end >= 0 then end else o + 1;
      }
      if l >= LINK_MARK {
        hops := hops + 1;
        if o + 1 >= |pkt| || hops > MAX_HOPS {
          FilledIsWritten(out[..], before, labels, w);
          return -1;
        }
        if end < 0 {
          end := o + 2;
        }
        o := Target(pkt, o);
      } else {
        if o + 1 + l > |pkt| {
          FilledIsWritten(out[..], before, labels, w);
          return -1;
        }
        AheadLabel(whole, labels, end, pkt[o + 1..o + 1 + l], Expand(pkt, o + 1 + l, hops));
        w := PutLabel(out, w, pkt[o + 1..o + 1 + l], before, labels);
        labels := labels + [pkt[o + 1..o + 1 + l]];
        o := o + 1 + l;
      }
    }
    FilledIsWritten(out[..], before, labels, w);
    r := -1;
  }
}
