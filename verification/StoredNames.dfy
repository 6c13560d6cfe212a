/** The stored forms a name may take in a packet, and that name_read's expansion
    inverts all of them (sections 3.1 and 4.1.4 of RFC 1035). */
module StoredNames {
  import opened Bytes
  import opened Names

  const MAX_LABEL := 63

  ghost predicate GoodLabels(labels: seq<bytes>) {
    forall k :: 0 <= k < |labels| ==> 1 <= |labels[k]| <= MAX_LABEL
  }

  /** At `o` the packet stores the name `labels`: labels and pointers in any order
      that makes sense, `pointers` of them in all, ending with the root. */
  ghost predicate Stored(pkt: bytes, o: nat, labels: seq<bytes>, pointers: nat)
    decreases pointers, |labels|
  {
    o < |pkt| &&
    if pkt[o] == 0 then
      labels == [] && pointers == 0
    else if pkt[o] >= LINK_MARK then
      o + 1 < |pkt| && pointers > 0 && Stored(pkt, Target(pkt, o), labels, pointers - 1)
    else
      && labels != [] && 1 <= |labels[0]| <= MAX_LABEL && pkt[o] == |labels[0]|
      && Occurs(pkt, o + 1, labels[0])
      && Stored(pkt, o + 1 + |labels[0]|, labels[1..], pointers)
  }

  lemma {:induction false} StoredIsExpanded(pkt: bytes, o: nat, labels: seq<bytes>, pointers: nat, hops: nat)
    requires Stored(pkt, o, labels, pointers) && hops + pointers <= MAX_HOPS
    ensures Expand(pkt, o, hops).ok && Expand(pkt, o, hops).labels == labels && GoodLabels(labels)
    decreases pointers, |labels|
  {
    if pkt[o] == 0 {
    } else if pkt[o] >= LINK_MARK {
      StoredIsExpanded(pkt, Target(pkt, o), labels, pointers - 1, hops + 1);
    } else {
      var n := |labels[0]|;
      StoredIsExpanded(pkt, o + 1 + n, labels[1..], pointers, hops);
      assert pkt[o + 1..o + 1 + n] == labels[0];
      assert labels == [labels[0]] + labels[1..];
    }
  }

  lemma {:induction false} ExpandedIsStored(pkt: bytes, o: nat, hops: nat) returns (pointers: nat)
    requires Expand(pkt, o, hops).ok && GoodLabels(Expand(pkt, o, hops).labels) && hops <= MAX_HOPS
    ensures hops + pointers <= MAX_HOPS && Stored(pkt, o, Expand(pkt, o, hops).labels, pointers)
    decreases MAX_HOPS - hops, |pkt| - o
  {
    if pkt[o] == 0 {
      pointers := 0;
    } else if pkt[o] >= LINK_MARK {
      var k := ExpandedIsStored(pkt, Target(pkt, o), hops + 1);
      pointers := k + 1;
    } else {
      var labels, rest := Expand(pkt, o, hops).labels, Expand(pkt, o + 1 + pkt[o], hops).labels;
      assert labels[0] == pkt[o + 1..o + 1 + pkt[o]] && labels[1..] == rest;
      assert forall k :: 0 <= k < |rest| ==> rest[k] == labels[k + 1];
      pointers := ExpandedIsStored(pkt, o + 1 + pkt[o], hops);
    }
  }

  ghost predicate StoredWithinLimit(pkt: bytes, o: nat, labels: seq<bytes>) {
    exists pointers: nat :: pointers <= MAX_HOPS && Stored(pkt, o, labels, pointers)
  }

  /** name_read succeeds with labels of legal size on exactly the stored forms with
      at most 16 pointers, and its labels are those stored. */
  lemma AcceptsExactlyStoredNames(pkt: bytes, off: nat, labels: seq<bytes>)
    ensures StoredWithinLimit(pkt, off, labels)
            <==> Expand(pkt, off, 0).ok && Expand(pkt, off, 0).labels == labels && GoodLabels(labels)
  {
    if StoredWithinLimit(pkt, off, labels) {
      var pointers: nat :| pointers <= MAX_HOPS && Stored(pkt, off, labels, pointers);
      StoredIsExpanded(pkt, off, labels, pointers, 0);
    }
    if Expand(pkt, off, 0).ok && Expand(pkt, off, 0).labels == labels && GoodLabels(labels) {
      var pointers := ExpandedIsStored(pkt, off, 0);
    }
  }

  /** Labels with their length bytes, as section 3.1 of RFC 1035 lays them out. */
  function EncodeLabels(labels: seq<bytes>): bytes {
    if labels == [] then [] else [|labels[0]| % 256] + labels[0] + EncodeLabels(labels[1..])
  }

  /** The two bytes of a pointer to `target`. */
  function EncodePointer(target: nat): bytes
    requires target < 0x4000
  {
    [LINK_MARK + target / 256, target % 256]
  }

  /** One more label in front of a stored name. */
  lemma OneLabelMore(pkt: bytes, o: nat, lab: bytes, rest: seq<bytes>, pointers: nat, hops: nat)
    requires 1 <= |lab| <= MAX_LABEL && Occurs(pkt, o, [|lab| % 256] + lab)
    requires Stored(pkt, o + 1 + |lab|, rest, pointers)
    ensures Stored(pkt, o, [lab] + rest, pointers)
    ensures Expand(pkt, o, hops).end == Expand(pkt, o + 1 + |lab|, hops).end
  {
    OccursSplit(pkt, o, [|lab| % 256], lab);
    assert pkt[o + 0] == [|lab| % 256][0];
    assert ([lab] + rest)[1..] == rest;
  }

  /** The first label of an encoding, and the encoding of the others. */
  lemma EncodingSplit(pkt: bytes, o: nat, labels: seq<bytes>)
    requires GoodLabels(labels) && labels != [] && Occurs(pkt, o, EncodeLabels(labels))
    ensures Occurs(pkt, o, [|labels[0]| % 256] + labels[0])
    ensures Occurs(pkt, o + 1 + |labels[0]|, EncodeLabels(labels[1..])) && GoodLabels(labels[1..])
    ensures |EncodeLabels(labels)| == 1 + |labels[0]| + |EncodeLabels(labels[1..])|
  {
    OccursSplit(pkt, o, [|labels[0]| % 256] + labels[0], EncodeLabels(labels[1..]));
    assert forall k :: 0 <= k < |labels[1..]| ==> labels[1..][k] == labels[k + 1];
  }

  lemma {:induction false} EncodedLabelsAreStored(
    pkt: bytes, o: nat, head: seq<bytes>, o': nat, tail: seq<bytes>, pointers: nat, hops: nat)
    requires GoodLabels(head) && Occurs(pkt, o, EncodeLabels(head))
    requires o' == o + |EncodeLabels(head)| && Stored(pkt, o', tail, pointers)
    ensures Stored(pkt, o, head + tail, pointers) && Expand(pkt, o, hops).end == Expand(pkt, o', hops).end
    decreases |head|
  {
    if head == [] {
      assert head + tail == tail && o' == o;
    } else {
      var n, rest := |head[0]|, head[1..] + tail;
      EncodingSplit(pkt, o, head);
      EncodedLabelsAreStored(pkt, o + 1 + n, head[1..], o', tail, pointers, hops);
      OneLabelMore(pkt, o, head[0], rest, pointers, hops);
      assert head == [head[0]] + head[1..];
      Regroup([head[0]], head[1..], tail);
    }
  }

  /** Round trip for a name stored in full. */
  lemma PlainNameRoundTrip(pkt: bytes, off: nat, labels: seq<bytes>)
    requires GoodLabels(labels) && Occurs(pkt, off, EncodeLabels(labels) + [0])
    ensures Expand(pkt, off, 0) == Walk(true, labels, off + |EncodeLabels(labels)| + 1)
    ensures Stored(pkt, off, labels, 0)
  {
    var o := off + |EncodeLabels(labels)|;
    OccursSplit(pkt, off, EncodeLabels(labels), [0]);
    assert pkt[o + 0] == [0][0];
    EncodedLabelsAreStored(pkt, off, labels, o, [], 0, 0);
    assert labels + [] == labels;
    StoredIsExpanded(pkt, off, labels, 0, 0);
  }

  /** Round trip for a name whose tail is stored elsewhere, behind a chain of at
      most 16 pointers in all: the offset returned is just past the first pointer. */
  lemma CompressedNameRoundTrip(pkt: bytes, off: nat, head: seq<bytes>, target: nat, tail: seq<bytes>, pointers: nat)
    requires GoodLabels(head) && target < 0x4000
    requires Occurs(pkt, off, EncodeLabels(head) + EncodePointer(target))
    requires Stored(pkt, target, tail, pointers) && pointers < MAX_HOPS
    ensures Expand(pkt, off, 0) == Walk(true, head + tail, off + |EncodeLabels(head)| + 2)
    ensures Stored(pkt, off, head + tail, pointers + 1)
  {
    var o := off + |EncodeLabels(head)|;
    OccursSplit(pkt, off, EncodeLabels(head), EncodePointer(target));
    assert pkt[o + 0] == EncodePointer(target)[0] && pkt[o + 1] == EncodePointer(target)[1];
    assert Target(pkt, o) == target;
    EncodedLabelsAreStored(pkt, off, head, o, tail, pointers + 1, 0);
    StoredIsExpanded(pkt, off, head + tail, pointers + 1, 0);
    StoredIsExpanded(pkt, o, tail, pointers + 1, 0);
  }
}
