/** A stream socket seen from one end, and the loops that tame short reads and
    short writes (components/core/src/net.c and tools/esp-ctl/src/esp-ctl.c). */
module Sockets {
  import opened Bytes

  /** The outcomes of `recv`: an empty chunk is the peer's orderly close. */
  datatype Received = Interrupted | Failed | Data(chunk: bytes)

  /** The outcomes of `send`, which accepts at least one byte when it succeeds. */
  datatype Accepted = SendInterrupted | SendFailed | Taken(n: nat)

  class Socket {
    /** Does the connection never fail with anything but EINTR? */
    const reliable: bool
    /** The bytes still to be received before the peer closes. */
    var input: bytes
    var output: bytes
    /** How many more times a call is interrupted. */
    var interrupts: nat

    constructor (input: bytes, interrupts: nat, reliable: bool)
      ensures this.input == input && output == [] && this.interrupts == interrupts && this.reliable == reliable
    {
      this.input, this.output, this.interrupts, this.reliable := input, [], interrupts, reliable;
    }

    method Recv(max: nat) returns (r: Received)
      requires 0 < max
      modifies this`input, this`interrupts
      ensures r.Interrupted? ==> input == old(input) && interrupts < old(interrupts)
      ensures r.Failed? ==> !reliable && interrupts == old(interrupts)
      ensures r.Data? ==>
                && old(input) == r.chunk + input && |r.chunk| <= max
                && (r.chunk == [] <==> old(input) == []) && interrupts == old(interrupts)
    {
      var choice: nat := *;
      if choice == 0 && interrupts > 0 {
        interrupts := interrupts - 1;
        return Interrupted;
      }
      if choice == 1 && !reliable {
        return Failed;
      }
      if |input| == 0 {
        return Data([]);
      }
      var n: nat := *;
      if n < 1 || n > max || n > |input| {
        n := 1;
      }
      r, input := Data(input[..n]), input[n..];
    }

    method Send(data: bytes) returns (r: Accepted)
      requires 0 < |data|
      modifies this`output, this`interrupts
      ensures r.SendInterrupted? ==> output == old(output) && interrupts < old(interrupts)
      ensures r.SendFailed? ==> !reliable && output == old(output) && interrupts == old(interrupts)
      ensures r.Taken? ==> 0 < r.n <= |data| && output == old(output) + data[..r.n] && interrupts == old(interrupts)
    {
      var choice: nat := *;
      if choice == 0 && interrupts > 0 {
        interrupts := interrupts - 1;
        return SendInterrupted;
      }
      if choice == 1 && !reliable {
        return SendFailed;
      }
      var n: nat := *;
      if n < 1 || n > |data| {
        n := 1;
      }
      r, output := Taken(n), output + data[..n];
    }
  }

  /** read_full: `r` is `n`, or 0 when the stream ends first, or -1. */
  method ReadFull(sock: Socket, buf: array<byte>, at: nat, n: nat) returns (r: int)
    requires at + n <= buf.Length
    modifies sock`input, sock`interrupts, buf
    ensures r == n || r == 0 || r == -1
    ensures r == -1 ==> !sock.reliable
    ensures r == n ==>
              && |old(sock.input)| >= n && buf[at..at + n] == old(sock.input)[..n]
              && sock.input == old(sock.input)[n..]
    ensures r == 0 && 0 < n ==> |old(sock.input)| < n
    ensures forall i :: 0 <= i < buf.Length && !(at <= i < at + n) ==> buf[i] == old(buf[i])
  {
    var got := 0;
    while got < n
      invariant got <= n && got <= |old(sock.input)|
      invariant sock.input == old(sock.input)[got..]
      invariant forall i :: 0 <= i < got ==> buf[at + i] == old(sock.input)[i]
      invariant forall i :: 0 <= i < buf.Length && !(at <= i < at + n) ==> buf[i] == old(buf[i])
      decreases n - got, sock.interrupts
    {
      ghost var before := sock.input;
      var c := sock.Recv(n - got);
      match c {
        case Interrupted =>
        case Failed => return -1;
        case Data(chunk) =>
          if chunk == [] {
            return 0;
          }
          assert forall i :: 0 <= i < |chunk| ==> chunk[i] == before[i] == old(sock.input)[got + i];
          Place(buf, at + got, chunk);
          got := got + |chunk|;
      }
    }
    r := got;
  }

  /** The bytes `recv` stores behind those already there. */
  method Place(buf: array<byte>, at: nat, chunk: bytes)
    requires at + |chunk| <= buf.Length
    modifies buf
    ensures forall i :: 0 <= i < |chunk| ==> buf[at + i] == chunk[i]
    ensures forall i :: 0 <= i < buf.Length && !(at <= i < at + |chunk|) ==> buf[i] == old(buf[i])
  {
    forall i | 0 <= i < |chunk| {
      buf[at + i] := chunk[i];
    }
  }

  /** write_full: on success all of `data` is on the wire, otherwise part of it. */
  method WriteFull(sock: Socket, data: bytes) returns (ok: bool)
    modifies sock`output, sock`interrupts
    ensures ok ==> sock.output == old(sock.output) + data
    ensures !ok ==> !sock.reliable && sock.output < old(sock.output) + data
    ensures old(sock.output) <= sock.output && sock.interrupts <= old(sock.interrupts)
  {
    var sent := 0;
    while sent < |data|
      invariant sent <= |data| && sock.output == old(sock.output) + data[..sent]
      invariant sock.interrupts <= old(sock.interrupts)
      decreases |data| - sent, sock.interrupts
    {
      var r := sock.Send(data[sent..]);
      match r {
        case SendInterrupted =>
        case SendFailed => return false;
        case Taken(n) =>
          assert data[..sent + n] == data[..sent] + data[sent..][..n];
          sent := sent + n;
      }
    }
    ok := true;
  }

  const LF: byte := 10
  const CR: byte := 13

  /** A line and the stream behind it. */
  datatype Line = Line(text: bytes, rest: bytes)

  function StripCr(s: bytes): (r: bytes)
    ensures r <= s
  {
    if s != [] && s[|s| - 1] == CR then s[..|s| - 1] else s
  }

  /** The first line of a stream, if it ends within `max` bytes; `soFar` of it has
      been read already. */
  function NextLine(soFar: bytes, stream: bytes, max: nat): Option<Line>
    decreases stream
  {
    if |soFar| >= max || stream == [] then
      None
    else if stream[0] == LF then
      Some(Line(StripCr(soFar), stream[1..]))
    else
      NextLine(soFar + [stream[0]], stream[1..], max)
  }

  /** recv_line and read_line: one byte at a time, at most `cap - 2` of them. */
  method RecvLine(sock: Socket, cap: nat) returns (line: Option<bytes>)
    requires 0 < cap
    modifies sock`input, sock`interrupts
    ensures line.Some? ==> NextLine([], old(sock.input), cap - 1) == Some(Line(line.value, sock.input))
    ensures sock.reliable && old(sock.interrupts) == 0 && NextLine([], old(sock.input), cap - 1).Some? ==> line.Some?
    ensures sock.interrupts <= old(sock.interrupts)
  {
    var out: bytes := [];
    while |out| < cap - 1
      invariant NextLine(out, sock.input, cap - 1) == NextLine([], old(sock.input), cap - 1)
      invariant sock.interrupts <= old(sock.interrupts)
      decreases cap - |out|
    {
      ghost var before := sock.input;
      var r := sock.Recv(1);
      if !r.Data? || r.chunk == [] {
        return None;
      }
      assert before[0] == r.chunk[0] && before[1..] == sock.input;
      if r.chunk[0] == LF {
        return Some(StripCr(out));
      }
      out := out + [r.chunk[0]];
    }
    line := None;
  }

  /** A line without LF or trailing CR, sent with a newline, is received as itself. */
  lemma {:induction false} NextLineReads(soFar: bytes, text: bytes, rest: bytes, max: nat)
    requires LF !in text && |soFar| + |text| < max
    ensures NextLine(soFar, text + [LF] + rest, max) == Some(Line(StripCr(soFar + text), rest))
    decreases |text|
  {
    var s := text + [LF] + rest;
    if text == [] {
      assert s[1..] == rest && soFar + text == soFar;
    } else {
      assert s[1..] == text[1..] + [LF] + rest;
      assert soFar + text == (soFar + [text[0]]) + text[1..];
      NextLineReads(soFar + [text[0]], text[1..], rest, max);
    }
  }

  /** A line that leaves no room for its newline is not received. */
  lemma {:induction false} LongLineIsRefused(soFar: bytes, text: bytes, rest: bytes, max: nat)
    requires LF !in text && |soFar| + |text| >= max
    ensures NextLine(soFar, text + [LF] + rest, max) == None
    decreases |text|
  {
    if |soFar| < max {
      assert (text + [LF] + rest)[1..] == text[1..] + [LF] + rest;
      LongLineIsRefused(soFar + [text[0]], text[1..], rest, max);
    }
  }
}
