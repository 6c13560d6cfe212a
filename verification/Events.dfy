/** Event lines, which other tasks of the device send on the channel of the replies. */
module Events {
  import opened Bytes

  /** Does a line start with `EVT `? */
  predicate IsEvent(s: bytes): (r: bool)
    ensures r <==> 4 <= |s| && s[0] == 69 && s[1] == 86 && s[2] == 84 && s[3] == 32
  {
    StartsWith(s, Ascii("EVT "))
  }

  /** The lines that are not events. */
  function NonEvents(lines: seq<bytes>): seq<bytes> {
    if lines == [] then [] else (if IsEvent(lines[0]) then [] else [lines[0]]) + NonEvents(lines[1..])
  }

  lemma {:induction false} NonEventsAppend(lines: seq<bytes>, last: bytes)
    ensures NonEvents(lines + [last]) == NonEvents(lines) + if IsEvent(last) then [] else [last]
    decreases |lines|
  {
    if lines == [] {
      assert lines + [last] == [last] && [last][1..] == [];
    } else {
      assert (lines + [last])[1..] == lines[1..] + [last];
      NonEventsAppend(lines[1..], last);
    }
  }

  lemma {:induction false} NonEventsPrefix(lines: seq<bytes>, k: nat)
    requires k <= |lines|
    ensures NonEvents(lines[..k]) <= NonEvents(lines)
    decreases |lines|
  {
    if k > 0 {
      assert lines[..k][1..] == lines[1..][..k - 1];
      NonEventsPrefix(lines[1..], k - 1);
    }
  }

  /** By their bytes: a line is passed over exactly when its first four are `EVT `, and all
      other lines stay, in order. */
  lemma FourBytesDecide(before: seq<bytes>, line: bytes, behind: seq<bytes>)
    ensures NonEvents(before + [line] + behind) ==
            NonEvents(before) + (if 4 <= |line| && line[..4] == [69, 86, 84, 32] then [] else [line])
            + NonEvents(behind)
  {
    assert 4 <= |line| ==> line[..4] == [line[0], line[1], line[2], line[3]];
    NonEventsJoin(before + [line], behind);
    NonEventsAppend(before, line);
  }

  lemma {:induction false} NonEventsJoin(a: seq<bytes>, b: seq<bytes>)
    ensures NonEvents(a + b) == NonEvents(a) + NonEvents(b)
    decreases |a|
  {
    if a == [] {
      assert a + b == b;
    } else {
      assert (a + b)[1..] == a[1..] + b;
      NonEventsJoin(a[1..], b);
    }
  }
}
