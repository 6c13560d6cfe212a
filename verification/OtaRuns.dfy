/** Whole runs of the OTA receiver: any calls in any order, with any outcome of
    every driver call. */
module OtaRuns {
  import opened Bytes
  import opened Ota

  datatype Event = Event(call: Call, ok: bool)

  /** `states` are what lies between the events of a run. */
  ghost predicate IsRun(digest: Digest, states: seq<View>, events: seq<Event>) {
    && |states| == |events| + 1
    && forall i :: 0 <= i < |events| ==> Next(digest, states[i], events[i].call, events[i].ok, states[i + 1])
  }

  /** What the calls alone say about the upload in progress: the size and digest of
      the last BEGIN, and the chunks acknowledged since. */
  function Announced(events: seq<Event>): Option<Upload> {
    if events == [] then None else
    var before, e := Announced(events[..|events| - 1]), events[|events| - 1];
    match e.call
    case BeginCall(size, sha) => if e.ok then Some(Upload(size, sha, [])) else None
    case DataCall(chunk) =>
      if e.ok && before.Some? then Some(before.value.(data := before.value.data + chunk)) else before
    case EndCall => None
    case AbortCall => None
  }

  lemma RunPrefix(digest: Digest, states: seq<View>, events: seq<Event>)
    requires IsRun(digest, states, events) && events != []
    ensures IsRun(digest, states[..|events|], events[..|events| - 1])
    ensures var e := events[|events| - 1];
            Next(digest, states[|events| - 1], e.call, e.ok, states[|events|])
  {
  }

  /** An upload in progress always is what the acknowledged calls announced. */
  lemma {:induction false} UploadIsAnnounced(digest: Digest, states: seq<View>, events: seq<Event>)
    requires IsRun(digest, states, events) && states[0].upload.None?
    ensures states[|events|].upload.Some? ==> Announced(events) == states[|events|].upload
    decreases |events|
  {
    if events != [] {
      var n := |events| - 1;
      RunPrefix(digest, states, events);
      UploadIsAnnounced(digest, states[..n + 1], events[..n]);
      assert states[..n + 1][n] == states[n];
    }
  }

  /** Commitment: when END succeeds, the boot image is exactly the concatenation of
      the chunks acknowledged since the last BEGIN, and has its size and digest. */
  lemma CommittedImageIsTheUpload(digest: Digest, states: seq<View>, events: seq<Event>)
    requires IsRun(digest, states, events) && states[0].upload.None?
    requires events != [] && events[|events| - 1] == Event(EndCall, true)
    ensures var u := Announced(events[..|events| - 1]);
            && u.Some? && |u.value.data| == u.value.total && digest(u.value.data) == u.value.expected
            && states[|events|].boot == Some(u.value.data)
  {
    var n := |events| - 1;
    RunPrefix(digest, states, events);
    UploadIsAnnounced(digest, states[..n + 1], events[..n]);
    assert states[..n + 1][n] == states[n];
  }

  /** Of the four calls, nothing else ever makes the device boot the update partition. */
  lemma {:induction false} OnlySuccessfulEndSetsBoot(digest: Digest, states: seq<View>, events: seq<Event>)
    requires IsRun(digest, states, events)
    requires forall i :: 0 <= i < |events| ==> events[i] != Event(EndCall, true)
    ensures SameChoice(states[0], states[|events|])
    decreases |events|
  {
    if events != [] {
      var n := |events| - 1;
      RunPrefix(digest, states, events);
      OnlySuccessfulEndSetsBoot(digest, states[..n + 1], events[..n]);
      assert states[..n + 1][n] == states[n];
    }
  }

  /** Without a BEGIN, an image set for booting stays what it is. */
  lemma {:induction false} CommittedImageStays(digest: Digest, states: seq<View>, events: seq<Event>)
    requires IsRun(digest, states, events) && states[0].upload.None?
    requires forall i :: 0 <= i < |events| ==> !events[i].call.BeginCall?
    ensures states[|events|] == states[0]
    decreases |events|
  {
    if events != [] {
      var n := |events| - 1;
      RunPrefix(digest, states, events);
      CommittedImageStays(digest, states[..n + 1], events[..n]);
      assert states[..n + 1][n] == states[n];
    }
  }

  /** Between a committed upload and the restart, is the image to be booted intact? Only
      if there is no BEGIN: the next upload goes to the same partition, which BEGIN
      erases, and the device is still set to boot it. */
  lemma CommittedImageIsIntact(digest: Digest, states: seq<View>, events: seq<Event>, image: bytes)
    requires IsRun(digest, states, events) && states[0] == View(None, Some(image)) && image != []
    requires forall i :: 0 <= i < |events| && events[i].call.BeginCall? ==> events[i].ok
    ensures (forall i :: 0 <= i < |states| ==> states[i].boot == Some(image))
            <==> forall i :: 0 <= i < |events| ==> !events[i].call.BeginCall?
  {
    if forall i :: 0 <= i < |events| ==> !events[i].call.BeginCall? {
      forall k | 0 <= k < |states|
        ensures states[k].boot == Some(image)
      {
        assert IsRun(digest, states[..k + 1], events[..k]);
        CommittedImageStays(digest, states[..k + 1], events[..k]);
      }
    } else {
      var i :| 0 <= i < |events| && events[i].call.BeginCall?;
      assert Next(digest, states[i], events[i].call, events[i].ok, states[i + 1]);
      assert states[i].boot != Some(image) || states[i + 1].boot != Some(image);
    }
  }

  predicate Callable(call: Call) {
    match call
    case BeginCall(size, _) => size < TWO_32
    case DataCall(chunk) => |chunk| < TWO_32
    case _ => true
  }

  method Perform(r: Receiver, call: Call) returns (ok: bool)
    requires r.Valid() && Callable(call)
    modifies r, r.driver
    ensures r.Valid() && Next(r.driver.digest, old(r.Now()), call, ok, r.Now())
  {
    match call
    case BeginCall(size, sha) => ok := r.Begin(size, sha);
    case DataCall(chunk) => ok := r.Data(chunk);
    case EndCall => ok := r.End();
    case AbortCall =>
      r.Abort();
      ok := true;
  }

  /** Typestate over whole sessions: the receiver performs any calls, every step is
      one the runs above allow, and teardown leaves no handle and no hash operation:
      all that was acquired has been released. */
  method AnySession(r: Receiver, calls: seq<Call>) returns (events: seq<Event>, ghost states: seq<View>)
    requires r.Valid() && forall i :: 0 <= i < |calls| ==> Callable(calls[i])
    modifies r, r.driver
    ensures IsRun(r.driver.digest, states, events) && states[0] == old(r.Now())
    ensures |events| == |calls| && forall i :: 0 <= i < |events| ==> events[i].call == calls[i]
    ensures r.Valid() && r.Now() == View(None, states[|events|].boot)
    ensures r.driver.open.Keys == {} && r.driver.hash.Inactive? && r.driver.acquired == r.driver.released
  {
    events, states := [], [r.Now()];
    for i := 0 to |calls|
      invariant r.Valid() && |events| == i && |states| == i + 1
      invariant IsRun(r.driver.digest, states, events)
      invariant states[i] == r.Now() && states[0] == old(r.Now())
      invariant forall k :: 0 <= k < i ==> events[k].call == calls[k]
    {
      var ok := Perform(r, calls[i]);
      events, states := events + [Event(calls[i], ok)], states + [r.Now()];
    }
    r.Abort();
  }
}
