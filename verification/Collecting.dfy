/** Which packets end up as devices of the list that discovery prints. */
module Collecting {
  import opened Bytes
  import opened Discover
  import opened Responses

  type Packets = seq<(bytes, bytes)>

  ghost predicate FromIpv4(packets: Packets) {
    forall k :: 0 <= k < |packets| ==> |packets[k].1| == 4
  }

  function DeviceOf(packets: Packets, k: nat): Option<Found>
    requires k < |packets| && |packets[k].1| == 4
  {
    Parse(packets[k].0, packets[k].1)
  }

  ghost predicate Names(packets: Packets, k: nat, name: bytes)
    requires k < |packets| && |packets[k].1| == 4
  {
    DeviceOf(packets, k).Some? && DeviceOf(packets, k).value.instance == name
  }

  /** Packet `k` is the first that names the device `d`, and `d` is what it says. */
  ghost predicate Introduces(packets: Packets, k: nat, d: Found)
    requires FromIpv4(packets)
  {
    k < |packets| && DeviceOf(packets, k) == Some(d) && forall j :: 0 <= j < k ==> !Names(packets, j, d.instance)
  }

  /** Packet `k` describes no device, or one of the list, or it comes when the list is full. */
  ghost predicate IsCovered(packets: Packets, k: nat, devs: Devices, from: seq<nat>)
    requires k < |packets| && |packets[k].1| == 4 && |from| == |devs|
  {
    DeviceOf(packets, k).Some? ==>
      || DeviceOf(packets, k).value.instance in Instances(devs)
      || (|devs| == 16 && forall i :: 0 <= i < |from| ==> from[i] < k)
  }

  /** The packets `from`, in the order in which they came, are those the list was made of. */
  ghost predicate MadeOf(packets: Packets, devs: Devices, from: seq<nat>)
    requires FromIpv4(packets)
  {
    && |from| == |devs|
    && (forall i :: 0 <= i < |devs| ==> Introduces(packets, from[i], devs[i]))
    && (forall i, j :: 0 <= i < j < |devs| ==> from[i] < from[j])
    && (forall k :: 0 <= k < |packets| ==> IsCovered(packets, k, devs, from))
  }

  lemma EarlierPacketsStand(packets: Packets, n: nat, devs: Devices, from: seq<nat>)
    requires FromIpv4(packets) && n < |packets| && MadeOf(packets[..n], devs, from)
    ensures forall i :: 0 <= i < |devs| ==> from[i] < n && Introduces(packets, from[i], devs[i])
    ensures forall k :: 0 <= k < n ==> IsCovered(packets, k, devs, from)
  {
    forall i | 0 <= i < |devs|
      ensures from[i] < n && Introduces(packets, from[i], devs[i])
    {
      assert Introduces(packets[..n], from[i], devs[i]);
      forall j | 0 <= j < from[i]
        ensures !Names(packets, j, devs[i].instance)
      {
        assert !Names(packets[..n], j, devs[i].instance);
      }
    }
    forall k | 0 <= k < n
      ensures IsCovered(packets, k, devs, from)
    {
      assert IsCovered(packets[..n], k, devs, from);
    }
  }

  lemma NoneNamedIt(packets: Packets, n: nat, devs: Devices, from: seq<nat>, name: bytes)
    requires FromIpv4(packets) && n < |packets| && MadeOf(packets[..n], devs, from)
    requires |devs| < 16 && name !in Instances(devs)
    ensures forall j :: 0 <= j < n ==> !Names(packets, j, name)
  {
    forall j | 0 <= j < n
      ensures !Names(packets, j, name)
    {
      assert IsCovered(packets[..n], j, devs, from);
    }
  }

  lemma StaysCovered(packets: Packets, k: nat, devs: Devices, from: seq<nat>, d: Found, n: nat)
    requires k < |packets| && |packets[k].1| == 4 && |from| == |devs| < 16 && IsCovered(packets, k, devs, from)
    ensures IsCovered(packets, k, devs + [d], from + [n])
  {
    if DeviceOf(packets, k).Some? {
      var name := DeviceOf(packets, k).value.instance;
      var i :| 0 <= i < |devs| && Instances(devs)[i] == name;
      assert Instances(devs + [d])[i] == name;
    }
  }

  /** The next packet is the first of its name while there is room. */
  lemma OneIsAdded(packets: Packets, n: nat, devs: Devices, from: seq<nat>, d: Found)
    requires FromIpv4(packets) && |packets| == n + 1 && MadeOf(packets[..n], devs, from)
    requires DeviceOf(packets, n) == Some(d) && |devs| < 16 && d.instance !in Instances(devs)
    ensures MadeOf(packets, devs + [d], from + [n])
  {
    hide IsCovered, Parse, Instances;
    EarlierPacketsStand(packets, n, devs, from);
    NoneNamedIt(packets, n, devs, from, d.instance);
    assert Introduces(packets, n, d);
    forall k | 0 <= k < |packets|
      ensures IsCovered(packets, k, devs + [d], from + [n])
    {
      if k == n {
        NewIsCovered(packets, devs, from, d, n);
      } else {
        StaysCovered(packets, k, devs, from, d, n);
      }
    }
  }

  lemma NewIsCovered(packets: Packets, devs: Devices, from: seq<nat>, d: Found, n: nat)
    requires n < |packets| && |packets[n].1| == 4 && DeviceOf(packets, n) == Some(d) && |from| == |devs|
    ensures IsCovered(packets, n, devs + [d], from + [n])
  {
    assert Instances(devs + [d])[|devs|] == d.instance;
  }

  lemma NoneIsAdded(packets: Packets, n: nat, devs: Devices, from: seq<nat>)
    requires FromIpv4(packets) && |packets| == n + 1 && MadeOf(packets[..n], devs, from)
    requires var r := DeviceOf(packets, n); r.None? || r.value.instance in Instances(devs) || |devs| == 16
    ensures MadeOf(packets, devs, from)
  {
    hide Parse, Instances;
    EarlierPacketsStand(packets, n, devs, from);
  }

  /** The list holds, in the order of their first packets, the devices as those packets
      describe them; and only when 16 are listed is a packet of a new name passed over. */
  lemma {:induction false} CollectedAreIntroduced(packets: Packets) returns (from: seq<nat>)
    requires FromIpv4(packets)
    ensures MadeOf(packets, Collected(packets), from)
    decreases |packets|
  {
    hide MadeOf, Parse, Instances;
    if packets == [] {
      from := [];
      NothingIsMade(packets);
    } else {
      var n := |packets| - 1;
      from := CollectedAreIntroduced(packets[..n]);
      var devs, r := Collected(packets[..n]), DeviceOf(packets, n);
      CollectedIsFine(packets[..n]);
      if r.Some? && r.value.instance !in Instances(devs) && |devs| < 16 {
        OneIsAdded(packets, n, devs, from, r.value);
        from := from + [n];
      } else {
        NoneIsAdded(packets, n, devs, from);
      }
    }
  }

  lemma NothingIsMade(packets: Packets)
    requires packets == []
    ensures MadeOf(packets, [], [])
  {
  }
}
