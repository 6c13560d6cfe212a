/** The codes in an answer packet: record types and compression pointers. */
module PacketBytes {
  import opened Bytes
  import opened Names
  import opened Packets
  import opened Records
  import opened Responses
  import opened StoredNames
  import opened Wire

  /** A, PTR, TXT and SRV, as section 3.2.2 of RFC 1035 and RFC 2782 number them; class,
      time to live and the length of the data follow. */
  lemma RecordByBytes(rec: Record)
    requires Encodable(rec)
    ensures var m := Middle(rec);
            && |m| == 10 && m[2..8] == [0, 1, 0, 0, 0, 0]
            && m[8] as int * 256 + m[9] == |Data(rec)|
            && match rec
               case Addr(_, _) => m[..2] == [0, 1]
               case Ptr(_, _) => m[..2] == [0, 12]
               case Txt(_, _) => m[..2] == [0, 16]
               case Srv(_, _, _) => m[..2] == [0, 33]
               case Other(_, kind, _) => m[0] as int * 256 + m[1] == kind
  {
    hide Data, Be;
    BeTwo(rec.Kind());
    BeTwo(|Data(rec)|);
    Regroup(Be(2, rec.Kind()), [0, 1, 0, 0, 0, 0], Be(2, |Data(rec)|));
  }

  lemma BeTwo(v: nat)
    requires v <= MAX_FRAME
    ensures Be(2, v) == [v / 256, v % 256]
  {
    assert Be(1, v / 256) == Be(0, v / 256 / 256) + [v / 256 % 256];
  }

  /** A pointer has its two highest bits set, and its other 14 are the offset. */
  lemma PointerByBytes(pkt: bytes, o: nat, target: nat)
    requires target < 16384 && o + 1 < |pkt|
    ensures Occurs(pkt, o, EncodePointer(target)) <==> (pkt[o] as int - 192) * 256 + pkt[o + 1] == target
  {
    var p := EncodePointer(target);
    if Occurs(pkt, o, p) {
      assert pkt[o + 0] == p[0] && pkt[o + 1] == p[1];
    }
  }

  /** A pointer leads to the name at its offset, unless it is the seventeenth. */
  lemma PointerIsFollowed(pkt: bytes, o: nat, hops: nat)
    requires o + 1 < |pkt| && pkt[o] >= 192
    ensures var r := Expand(pkt, o, hops);
            if hops >= 16 then !r.ok else
            var to := Expand(pkt, (pkt[o] as int - 192) * 256 + pkt[o + 1], hops + 1);
            r.ok == to.ok && r.labels == to.labels && (r.ok ==> r.end == o + 2)
  {
    assert pkt[o] % 64 == pkt[o] - 192;
  }

  /** `_espshell._tcp` */
  const SERVICE: bytes := [95, 101, 115, 112, 115, 104, 101, 108, 108, 46, 95, 116, 99, 112]

  /** Records of other types, records of other services, service records of fewer than
      seven bytes and addresses of another length than four tell the parser nothing. */
  lemma OthersTellNothing(pkt: bytes, f: Facts, rr: Rr)
    requires rr.at + rr.len <= |pkt| && |f.hostname| == HOST_CAP
    requires || rr.kind !in {1, 12, 16, 33} || (rr.kind == 1 && rr.len != 4) || (rr.kind == 33 && rr.len < 7)
             || (rr.kind != 1 && forall p: nat :: !Occurs(rr.owner, p, SERVICE))
    ensures Learn(pkt, f, rr) == f
  {
    assert Service() == SERVICE;
    ContainsFindsEveryPlace(rr.owner, SERVICE);
  }
}
