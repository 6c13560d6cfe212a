/** The OTA receiver of components/core/src/ota.c over flash and hash drivers that
    may fail at any call. */
module Ota {
  import opened Bytes

  /** SHA-256 as a function. */
  type Digest = f: bytes -> bytes | forall b :: |f(b)| == 32 witness _ => seq(32, _ => 0)

  /** A PSA hash operation. One that has failed must still be aborted. */
  datatype HashOp = Inactive | Running(data: bytes) | Broken

  /** The esp_ota and PSA hash drivers. A handle may be used only while it is open,
      a hash operation only in the state its call demands. The counters record
      every acquisition and release. */
  class Driver {
    const capacity: nat
    const digest: Digest
    /** Does every call that may succeed do so? */
    const reliable: bool

    /** What has been written through each handle that is open. */
    var open: map<nat, bytes>
    var lastHandle: nat
    var hash: HashOp
    /** What the update partition holds: until the device restarts, every upload goes to
        the same one. */
    var part: bytes
    /** The image that esp_ota_end validated last, and whether the update partition is set
        for booting. */
    var ended: Option<bytes>
    var selected: bool
    var acquired: nat
    var released: nat

    constructor (capacity: nat, digest: Digest, reliable: bool)
      requires capacity < TWO_32
      ensures Sane() && open == map[] && hash.Inactive? && !selected && acquired == released == 0
      ensures this.capacity == capacity && this.digest == digest && this.reliable == reliable
    {
      this.capacity, this.digest, this.reliable := capacity, digest, reliable;
      open, lastHandle, hash, part, ended, selected := map[], 0, Inactive, [], None, false;
      acquired, released := 0, 0;
    }

    /** Handles are never 0 nor reissued. */
    ghost predicate Sane()
      reads this
    {
      capacity < TWO_32 && forall h :: h in open ==> 0 < h <= lastHandle
    }

    /** What the device will boot, if not the image that it runs. */
    function Boot(): Option<bytes>
      reads this
    {
      if selected then Some(part) else None
    }

    method Fault() returns (fails: bool)
      ensures reliable ==> !fails
    {
      fails := *;
      fails := fails && !reliable;
    }

    /** esp_ota_begin erases the update partition; if it fails, some of it may be erased. */
    method Begin(size: nat) returns (h: Option<nat>)
      requires Sane()
      modifies this`open, this`lastHandle, this`acquired, this`part
      ensures Sane()
      ensures h.None? ==> open == old(open) && acquired == old(acquired)
      ensures h.Some? ==>
                && h.value != 0 && h.value !in old(open) && open == old(open)[h.value := []]
                && acquired == old(acquired) + 1 && part == []
      ensures reliable && size <= capacity ==> h.Some?
    {
      var fails := Fault();
      if fails || size > capacity {
        part := *;
        return None;
      }
      lastHandle := lastHandle + 1;
      open, acquired, part := open[lastHandle := []], acquired + 1, [];
      h := Some(lastHandle);
    }

    /** A failed write leaves an unknown part of the chunk behind. */
    method Write(h: nat, chunk: bytes) returns (ok: bool)
      requires Sane() && h in open
      modifies this`open, this`part
      ensures Sane() && open.Keys == old(open).Keys && part == open[h]
      ensures ok ==> open == old(open)[h := old(open)[h] + chunk] && |open[h]| <= capacity
      ensures reliable && |old(open)[h]| + |chunk| <= capacity ==> ok
    {
      var fails := Fault();
      if fails || |open[h]| + |chunk| > capacity {
        var k: int := *;
        open := open[h := open[h] + chunk[..if 0 <= k <= |chunk| then k else 0]];
        part := open[h];
        return false;
      }
      open := open[h := open[h] + chunk];
      part := open[h];
      ok := true;
    }

    /** Frees the handle whether it succeeds or not. */
    method End(h: nat) returns (ok: bool)
      requires Sane() && h in open
      modifies this`open, this`ended, this`released
      ensures Sane() && open == old(open) - {h} && released == old(released) + 1
      ensures ok ==> ended == Some(old(open)[h])
      ensures reliable ==> ok
    {
      var fails := Fault();
      ended := if fails then None else Some(open[h]);
      open, released := open - {h}, released + 1;
      ok := !fails;
    }

    method Abort(h: nat)
      requires Sane() && h in open
      modifies this`open, this`released
      ensures Sane() && open == old(open) - {h} && released == old(released) + 1
    {
      open, released := open - {h}, released + 1;
    }

    method SetBoot() returns (ok: bool)
      modifies this`selected
      ensures selected == (ok || old(selected)) && (ok ==> ended.Some?)
      ensures reliable && ended.Some? ==> ok
    {
      var fails := Fault();
      ok := !fails && ended.Some?;
      selected := selected || ok;
    }

    method HashSetup() returns (ok: bool)
      requires hash.Inactive?
      modifies this`hash, this`acquired
      ensures hash == (if ok then Running([]) else Inactive) && acquired == old(acquired) + (if ok then 1 else 0)
      ensures reliable ==> ok
    {
      var fails := Fault();
      ok := !fails;
      if ok {
        hash, acquired := Running([]), acquired + 1;
      }
    }

    method HashUpdate(chunk: bytes) returns (ok: bool)
      requires hash.Running?
      modifies this`hash
      ensures hash == if ok then Running(old(hash).data + chunk) else Broken
      ensures reliable ==> ok
    {
      var fails := Fault();
      ok := !fails;
      hash := if ok then Running(hash.data + chunk) else Broken;
    }

    method HashFinish() returns (got: Option<bytes>)
      requires hash.Running?
      modifies this`hash, this`released
      ensures got.Some? ==> got.value == digest(old(hash).data) && hash.Inactive? && released == old(released) + 1
      ensures got.None? ==> hash.Broken? && released == old(released)
      ensures reliable ==> got.Some?
    {
      var fails := Fault();
      if fails {
        hash := Broken;
        return None;
      }
      got := Some(digest(hash.data));
      hash, released := Inactive, released + 1;
    }

    /** Harmless on an operation that is not active. */
    method HashAbort()
      modifies this`hash, this`released
      ensures hash.Inactive? && released == old(released) + (if old(hash).Inactive? then 0 else 1)
    {
      if !hash.Inactive? {
        hash, released := Inactive, released + 1;
      }
    }
  }

  /** An upload in progress. */
  datatype Upload = Upload(total: nat, expected: bytes, data: bytes)

  /** The upload in progress, and what the device will boot: `None` is the image that it
      runs, `Some` the update partition with what it holds. */
  datatype View = View(upload: Option<Upload>, boot: Option<bytes>)

  datatype Call = BeginCall(size: nat, sha: bytes) | DataCall(chunk: bytes) | EndCall | AbortCall

  /** The sum of two 32-bit numbers in 32 bits. */
  function Add32(a: nat, b: nat): (r: nat)
    ensures a + b < TWO_32 ==> r == a + b
  {
    if a + b < TWO_32 then a + b else a + b - TWO_32
  }

  /** Is the chunk refused before any driver is asked? */
  predicate Refused(v: View, chunk: bytes) {
    v.upload.None? || chunk == [] || v.upload.value.total < Add32(|v.upload.value.data|, |chunk|)
  }

  /** The device will boot the same partition, whatever that holds. */
  ghost predicate SameChoice(v: View, w: View) {
    v.boot.Some? <==> w.boot.Some?
  }

  /** The update partition is erased, even if the device is to boot it. */
  ghost predicate NextBegin(v: View, size: nat, sha: bytes, ok: bool, w: View) {
    && w.upload == (if ok then Some(Upload(size, sha, [])) else None)
    && SameChoice(v, w) && (ok && v.boot.Some? ==> w.boot == Some([]))
  }

  /** A refused chunk changes nothing; a driver failure ends the upload. */
  ghost predicate NextData(v: View, chunk: bytes, ok: bool, w: View) {
    if Refused(v, chunk) then !ok && w == v
    else if !ok then w.upload.None? && SameChoice(v, w)
    else
      var u := v.upload.value;
      && |u.data| + |chunk| <= u.total && w.upload == Some(u.(data := u.data + chunk))
      && SameChoice(v, w) && (v.boot.Some? ==> w.boot == Some(u.data + chunk))
  }

  /** Success means that the announced image is complete and set for booting. */
  ghost predicate NextEnd(digest: Digest, v: View, ok: bool, w: View) {
    && (ok ==> v.upload.Some? && Complete(digest, v.upload.value))
    && w == View(None, if ok then Some(v.upload.value.data) else v.boot)
  }

  /** What a call may do, given its result; drivers decide the rest. */
  ghost predicate Next(digest: Digest, v: View, call: Call, ok: bool, w: View) {
    match call
    case BeginCall(size, sha) => NextBegin(v, size, sha, ok, w)
    case DataCall(chunk) => NextData(v, chunk, ok, w)
    case EndCall => NextEnd(digest, v, ok, w)
    case AbortCall => ok && w == v.(upload := None)
  }

  predicate Complete(digest: Digest, u: Upload) {
    |u.data| == u.total && digest(u.data) == u.expected
  }

  /** ota_state_t and the functions of ota.c. */
  class Receiver {
    const driver: Driver
    var active: bool
    var h: nat
    var part: bool
    var total: nat
    var received: nat
    var expected: bytes

    constructor (driver: Driver)
      requires driver.Sane() && driver.open == map[] && driver.hash.Inactive? && driver.acquired == driver.released
      ensures this.driver == driver && Valid() && Now() == View(None, driver.Boot())
    {
      this.driver := driver;
      active, h, part, total, received, expected := false, 0, false, 0, 0, [];
    }

    /** While active exactly the receiver's handle is open, and the flash, the hash
        and the count agree; otherwise nothing is held. What was acquired and not
        released is the handle and the hash operation of an active upload. */
    ghost predicate Valid()
      reads this, driver
    {
      && driver.Sane() && total < TWO_32
      && if active then
           && driver.open.Keys == {h}
           && driver.hash == Running(driver.open[h]) && driver.part == driver.open[h]
           && received == |driver.open[h]| <= total
           && received <= driver.capacity
           && driver.acquired == driver.released + 2
         else
           driver.open.Keys == {} && driver.hash.Inactive? && driver.acquired == driver.released
    }

    ghost function Now(): View
      reads this, driver
    {
      View(if active && h in driver.open then Some(Upload(total, expected, driver.open[h])) else None, driver.Boot())
    }

    /** Room and a driver that does not fail. */
    ghost predicate Dependable()
      reads this, driver
    {
      driver.reliable && total <= driver.capacity
    }

    /** `memset(&s, 0, sizeof(s))`: lawful only when nothing is held. */
    method Clear()
      requires driver.hash.Inactive?
      modifies this
      ensures !active && h == 0 && total == 0 && received == 0
    {
      active, h, part, total, received, expected := false, 0, false, 0, 0, [];
    }

    method AbortLocked()
      requires Valid()
      modifies this, driver`open, driver`hash, driver`released
      ensures Valid() && !active && driver.Boot() == old(driver.Boot())
    {
      if !active {
        return;
      }
      DropHandle();
    }

    /** The part of abort_locked behind its guard, from any state of the hash. */
    method DropHandle()
      requires driver.Sane() && active
      requires driver.open.Keys == if h == 0 then {} else {h}
      requires driver.acquired == driver.released + |driver.open.Keys| + (if driver.hash.Inactive? then 0 else 1)
      modifies this, driver`open, driver`hash, driver`released
      ensures Valid() && !active
    {
      if h != 0 {
        driver.Abort(h);
      }
      driver.HashAbort();
      Clear();
    }

    /** The part of ota_begin behind the abort of an upload in progress. */
    method Start(size: nat, sha: bytes) returns (ok: bool)
      requires Valid() && !active && size < TWO_32
      modifies this, driver
      ensures Valid() && active == ok && (ok ==> total == size && expected == sha && driver.part == [])
      ensures driver.Boot().Some? <==> old(driver.Boot()).Some?
      ensures driver.reliable && size <= driver.capacity ==> ok
    {
      part := *;
      part := part || driver.reliable;
      if !part {
        return false;
      }
      var r := driver.Begin(size);
      if r.None? {
        return false;
      }
      h := r.value;
      total, received, expected := size, 0, sha;
      ok := driver.HashSetup();
      if !ok {
        driver.Abort(h);
        return false;
      }
      active := true;
    }

    method Begin(size: nat, sha: bytes) returns (ok: bool)
      requires Valid() && size < TWO_32
      modifies this, driver
      ensures Valid() && NextBegin(old(Now()), size, sha, ok, Now())
      ensures driver.reliable && size <= driver.capacity ==> ok
    {
      if active {
        AbortLocked();
      }
      ok := Start(size, sha);
    }

    /** `received + len` is computed with 32 bits, as `size_t` has on the device. */
    method Data(chunk: bytes) returns (ok: bool)
      requires Valid() && |chunk| < TWO_32
      modifies this, driver`open, driver`part, driver`hash, driver`released
      ensures Valid() && NextData(old(Now()), chunk, ok, Now())
      ensures ok ==>
                && Now().upload.Some?
                && received == |Now().upload.value.data| && total == Now().upload.value.total
      ensures old(Dependable() && active) && chunk != [] && old(received) + |chunk| <= old(total) ==> ok
    {
      if !active || |chunk| == 0 {
        return false;
      }
      if Add32(received, |chunk|) > total {
        return false;
      }
      ok := driver.Write(h, chunk);
      if !ok {
        DropHandle();
        return;
      }
      assert received + |chunk| < TWO_32;
      ok := driver.HashUpdate(chunk);
      if !ok {
        DropHandle();
        return;
      }
      received := Add32(received, |chunk|);
    }

    /** The part of ota_end behind the check of the digest. */
    method Commit() returns (ok: bool)
      requires driver.Sane() && active && driver.open.Keys == {h} && driver.part == driver.open[h]
      requires driver.hash.Inactive? && driver.acquired == driver.released + 1
      modifies this, driver
      ensures Valid() && !active
      ensures driver.Boot() == if ok then Some(old(driver.open[h])) else old(driver.Boot())
      ensures driver.reliable ==> ok
    {
      ok := driver.End(h);
      h := 0;
      if !ok {
        DropHandle();
        return;
      }
      ok := driver.SetBoot();
      Clear();
    }

    method End() returns (ok: bool)
      requires Valid()
      modifies this, driver
      ensures Valid() && NextEnd(driver.digest, old(Now()), ok, Now())
      ensures driver.reliable && old(Now()).upload.Some? && Complete(driver.digest, old(Now()).upload.value) ==> ok
    {
      if !active {
        return false;
      }
      if received != total {
        AbortLocked();
        return false;
      }
      var got := driver.HashFinish();
      if got.None? || |got.value| != 32 || got.value != expected {
        DropHandle();
        return false;
      }
      ok := Commit();
    }

    /** ota_abort, which session teardown calls too. */
    method Abort()
      requires Valid()
      modifies this, driver`open, driver`hash, driver`released
      ensures Valid() && Now() == old(Now()).(upload := None)
    {
      AbortLocked();
    }
  }
}
