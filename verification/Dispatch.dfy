/** Command registration and dispatch: components/core/src/cmd.c, with the command
    handlers of components/core/src/ota.c behind it. */
module Dispatch {
  import opened Bytes
  import opened Decimal
  import opened Events
  import Hex
  import opened Ota
  import opened Tokenizer

  const MAX_NAME := 31
  const MAX_ARGV := 16
  const MAX_CMDS := 128
  const MAX_RESP := 4096
  const MAX_LINE := 1024
  const CHUNK_CAP := 1024
  const SHA_LEN := 32

  const UNKNOWN_CMD := 1
  const BAD_ARGS := 2
  const HW_FAIL := 4
  const INTERNAL := 9

  /** The handlers of ota.c, and any other, which does not touch the OTA state;
      OTA_ROLLBACK, which sets the boot partition, is left out. */
  datatype Handler = OtaBegin | OtaData | OtaEnd | OtaAbort | Custom(id: nat)

  datatype Entry = Entry(name: bytes, handler: Handler)

  /** The handler registered under a name. */
  function Find(table: seq<Entry>, name: bytes): (h: Option<Handler>)
    ensures h.None? <==> forall i :: 0 <= i < |table| ==> table[i].name != name
    ensures forall i :: 0 <= i < |table| && table[i].name == name && Distinct(table) ==> h == Some(table[i].handler)
  {
    if table == [] then None
    else if table[0].name == name then Some(table[0].handler)
    else
      assert forall i :: 1 <= i < |table| ==> table[i] == table[1..][i - 1];
      Find(table[1..], name)
  }

  ghost predicate Distinct(table: seq<Entry>) {
    forall i, j :: 0 <= i < j < |table| ==> table[i].name != table[j].name
  }

  /** What a handler reports: its verdict, its payload and the error code left behind. */
  datatype Outcome = Outcome(ok: bool, payload: bytes, code: int)

  /** The line sent back for an outcome. */
  function Report(r: Outcome): bytes {
    if r.ok then
      if r.payload == [] then Ascii("OK") else Ascii("OK ") + r.payload
    else
      var code := if r.code == 0 then INTERNAL else r.code;
      Ascii("ERR ") + (Signed(code) + Ascii(" ") + if r.payload != [] then r.payload else Ascii("handler failed"))
  }

  /** The reply to a tokenised line, given the outcome of the handler it names. */
  function Reply(table: seq<Entry>, toks: seq<bytes>, r: Outcome): bytes {
    if toks == [] then
      Ascii("OK")
    else if Find(table, toks[0]).Some? then
      Report(r)
    else
      Ascii("ERR ") + (Signed(UNKNOWN_CMD) + Ascii(" unknown command: ") + toks[0])
  }

  predicate StartsOk(s: bytes) {
    StartsWith(s, Ascii("OK"))
  }

  lemma CutKeepsPrefix(prefix: bytes, rest: bytes, max: nat)
    requires |prefix| <= max
    ensures StartsWith(Truncated(prefix + rest, max), prefix)
  {
    assert Truncated(prefix + rest, max)[..|prefix|] == prefix;
  }

  lemma OkEventErr(s: bytes)
    requires StartsWith(s, Ascii("ERR "))
    ensures !StartsOk(s) && !IsEvent(s)
  {
    assert s[0] == Ascii("ERR ")[0] == 69;
    assert Ascii("OK")[0] == 79;
    assert s[1] == Ascii("ERR ")[1] == 82;
    assert Ascii("EVT ")[1] == 86;
  }

  lemma OkIsNoEvent(s: bytes)
    requires StartsOk(s)
    ensures !IsEvent(s)
  {
    assert s[0] == Ascii("OK")[0] == 79;
    assert Ascii("EVT ")[0] == 69;
  }

  /** Truncated to any buffer of at least 8 bytes, a reply starts with OK or ERR,
      never like an event; it starts with OK exactly when the line was blank or its
      handler succeeded. */
  lemma RepliesAreNotEvents(table: seq<Entry>, toks: seq<bytes>, r: Outcome, outSz: nat)
    requires 8 <= outSz
    ensures var s := Truncated(Reply(table, toks, r), outSz - 1);
            && !IsEvent(s) && (StartsOk(s) || StartsWith(s, Ascii("ERR ")))
            && (StartsOk(s) <==> toks == [] || (Find(table, toks[0]).Some? && r.ok))
  {
    var reply := Reply(table, toks, r);
    var s := Truncated(reply, outSz - 1);
    if toks == [] || (Find(table, toks[0]).Some? && r.ok) {
      assert Ascii("OK ") == Ascii("OK") + Ascii(" ");
      Regroup(Ascii("OK"), Ascii(" "), r.payload);
      CutKeepsPrefix(Ascii("OK"), reply[2..], outSz - 1);
      assert reply == Ascii("OK") + reply[2..];
      OkIsNoEvent(s);
    } else {
      CutKeepsPrefix(Ascii("ERR "), reply[4..], outSz - 1);
      assert reply == Ascii("ERR ") + reply[4..];
      OkEventErr(s);
    }
  }

  /** Writes a text into a buffer as snprintf does; the result is its full length. */
  method Snprintf(out: array<byte>, s: bytes) returns (n: nat)
    requires 0 < out.Length && NulFree(s)
    modifies out
    ensures n == |s| && StringAt(out[..], 0, Truncated(s, out.Length - 1))
  {
    n := |s|;
    var m := Min(|s|, out.Length - 1);
    forall i | 0 <= i < m {
      out[i] := s[i];
    }
    out[m] := 0;
  }

  /** What running a handler does to the OTA state and what it may report. */
  ghost predicate Handled(digest: Digest, h: Handler, args: seq<bytes>, v: View, ok: bool, w: View) {
    match h
    case OtaBegin =>
      if |args| != 2 || !Hex.IsHex(args[1]) || |args[1]| != 2 * SHA_LEN then !ok && w == v
      else NextBegin(v, Strtoul(args[0]), Hex.Decode(args[1]), ok, w)
    case OtaData =>
      if |args| != 1 || !Hex.IsHex(args[0]) || args[0] == [] || |args[0]| > 2 * CHUNK_CAP then !ok && w == v
      else NextData(v, Hex.Decode(args[0]), ok, w)
    case OtaEnd => NextEnd(digest, v, ok, w)
    case OtaAbort => ok && w == v.(upload := None)
    case Custom(_) => w == v
  }

  /** Are the arguments of an OTA command as they must be? */
  predicate ArgumentsFit(h: Handler, args: seq<bytes>) {
    match h
    case OtaBegin => |args| == 2 && Hex.IsHex(args[1]) && |args[1]| == 64
    case OtaData => |args| == 1 && Hex.IsHex(args[0]) && 0 < |args[0]| <= 2048
    case _ => true
  }

  /** What a handler reports: those of ota.c set code 2 for bad arguments and 4 for a
      failure behind them, and acknowledge a chunk by what has been received and the
      total. */
  ghost predicate Says(h: Handler, args: seq<bytes>, custom: Outcome, r: Outcome, w: View) {
    match h
    case Custom(_) => r == custom
    case OtaBegin =>
      if r.ok then r == Outcome(true, Ascii("ready chunk_max=502"), 0)
      else if |args| != 2 then r == Outcome(false, Ascii("size sha256"), BAD_ARGS)
      else if !ArgumentsFit(h, args) then r == Outcome(false, Ascii("sha256"), BAD_ARGS)
      else r == Outcome(false, Ascii("begin failed"), HW_FAIL)
    case OtaData =>
      if r.ok then
        && w.upload.Some?
        && r == Outcome(true, Digits(|w.upload.value.data|) + ([47] + Digits(w.upload.value.total)), 0)
      else if |args| != 1 then r == Outcome(false, [], BAD_ARGS)
      else if !ArgumentsFit(h, args) then r == Outcome(false, Ascii("hex"), BAD_ARGS)
      else r == Outcome(false, Ascii("write"), HW_FAIL)
    case OtaEnd =>
      if r.ok then r == Outcome(true, Ascii("committed, rebooting"), 0)
      else r == Outcome(false, Ascii("verify/commit failed"), HW_FAIL)
    case OtaAbort => r == Outcome(true, [], 0)
  }

  /** What the handler found reports. */
  ghost predicate Reports(table: seq<Entry>, toks: seq<bytes>, custom: Outcome, r: Outcome, w: View) {
    toks != [] && Find(table, toks[0]).Some? ==> Says(Find(table, toks[0]).value, toks[1..], custom, r, w)
  }

  /** When does an OTA command succeed, given drivers that do not fail? */
  ghost predicate MustSucceed(driver: Driver, h: Handler, args: seq<bytes>, v: View) {
    match h
    case OtaBegin =>
      && |args| == 2 && Hex.IsHex(args[1]) && |args[1]| == 2 * SHA_LEN && Strtoul(args[0]) <= driver.capacity
    case OtaData =>
      && |args| == 1 && Hex.IsHex(args[0]) && 0 < |args[0]| <= 2 * CHUNK_CAP
      && v.upload.Some? && |v.upload.value.data| + |args[0]| / 2 <= v.upload.value.total <= driver.capacity
    case OtaEnd => v.upload.Some? && Complete(driver.digest, v.upload.value)
    case OtaAbort => true
    case Custom(_) => false
  }

  /** What dispatching the tokens does to the OTA state. */
  ghost predicate Dispatched(table: seq<Entry>, digest: Digest, toks: seq<bytes>, v: View, r: Outcome, w: View) {
    if toks == [] || Find(table, toks[0]).None? then w == v
    else Handled(digest, Find(table, toks[0]).value, toks[1..], v, r.ok, w)
  }

  /** Does the line call an OTA command that must succeed if no driver fails? */
  ghost predicate Bound(table: seq<Entry>, driver: Driver, toks: seq<bytes>, v: View) {
    && toks != [] && Find(table, toks[0]).Some?
    && MustSucceed(driver, Find(table, toks[0]).value, toks[1..], v)
  }

  /** The command table, the error slot and the OTA receiver. */
  class Shell {
    const ota: Receiver
    var table: seq<Entry>
    var lastErr: int

    constructor (ota: Receiver)
      ensures this.ota == ota && table == []
    {
      this.ota, table, lastErr := ota, [], 0;
    }

    /** What registration maintains. */
    ghost predicate Registered()
      reads this
    {
      Distinct(table) && |table| <= MAX_CMDS && forall i :: 0 <= i < |table| ==> 0 < |table[i].name| <= MAX_NAME
    }

    /** cmd_register: refuses names that are empty, too long or taken. */
    method Register(name: bytes, handler: Handler) returns (ok: bool)
      requires Registered()
      modifies this`table
      ensures Registered()
      ensures ok <==> 0 < |name| <= MAX_NAME && |old(table)| < MAX_CMDS && Find(old(table), name).None?
      ensures table == if ok then old(table) + [Entry(name, handler)] else old(table)
      ensures ok ==> Find(table, name) == Some(handler)
      ensures forall other :: other != name ==> Find(table, other) == Find(old(table), other)
    {
      if |name| == 0 || |name| > MAX_NAME || |table| >= MAX_CMDS {
        return false;
      }
      for i := 0 to |table|
        invariant forall k :: 0 <= k < i ==> table[k].name != name
      {
        if table[i].name == name {
          return false;
        }
      }
      FindAppended(table, Entry(name, handler));
      table := table + [Entry(name, handler)];
      ok := true;
    }

    method CBegin(args: seq<bytes>) returns (ok: bool, payload: bytes)
      requires ota.Valid()
      modifies this`lastErr, ota, ota.driver
      ensures ota.Valid() && NulFree(payload)
      ensures Handled(ota.driver.digest, OtaBegin, args, old(ota.Now()), ok, ota.Now())
      ensures ota.driver.reliable && MustSucceed(ota.driver, OtaBegin, args, old(ota.Now())) ==> ok
      ensures ok ==> payload == Ascii("ready chunk_max=502") && lastErr == old(lastErr)
      ensures |args| != 2 ==> lastErr == 2 && payload == Ascii("size sha256")
      ensures |args| == 2 && !(Hex.IsHex(args[1]) && |args[1]| == 64) ==> lastErr == 2 && payload == Ascii("sha256")
      ensures !ok && |args| == 2 && Hex.IsHex(args[1]) && |args[1]| == 64 ==>
                lastErr == 4 && payload == Ascii("begin failed")
    {
      if |args| != 2 {
        lastErr := BAD_ARGS;
        return false, Ascii("size sha256");
      }
      var size := Strtoul(args[0]);
      var sha := new byte[SHA_LEN];
      var n := Hex.HexToBytes(args[1], sha);
      if n != SHA_LEN {
        lastErr := BAD_ARGS;
        return false, Ascii("sha256");
      }
      assert sha[..n] == sha[..];
      ok := ota.Begin(size, sha[..]);
      if !ok {
        lastErr := HW_FAIL;
        return false, Ascii("begin failed");
      }
      payload := Ascii("ready chunk_max=502");
    }

    /** The part of c_data behind the decoding: an accepted chunk is acknowledged by what
        has been received and the total. */
    method Store(chunk: bytes) returns (ok: bool, payload: bytes)
      requires ota.Valid() && |chunk| <= CHUNK_CAP
      modifies this`lastErr, ota, ota.driver
      ensures ota.Valid() && NextData(old(ota.Now()), chunk, ok, ota.Now())
      ensures ok ==>
                && lastErr == old(lastErr) && ota.Now().upload.Some?
                && var u := ota.Now().upload.value;
                   payload == Digits(|u.data|) + ([47] + Digits(u.total))
      ensures !ok ==> lastErr == 4 && payload == Ascii("write")
      ensures NulFree(payload)
      ensures var u := old(ota.Now()).upload;
              ota.driver.reliable && chunk != [] && u.Some? ==>
                |u.value.data| + |chunk| <= u.value.total <= ota.driver.capacity ==> ok
    {
      ok := ota.Data(chunk);
      if !ok {
        lastErr := HW_FAIL;
        return false, Ascii("write");
      }
      payload := Digits(ota.received) + (Ascii("/") + Digits(ota.total));
    }

    method CData(args: seq<bytes>) returns (ok: bool, payload: bytes)
      requires ota.Valid()
      modifies this`lastErr, ota, ota.driver
      ensures ota.Valid() && NulFree(payload)
      ensures Handled(ota.driver.digest, OtaData, args, old(ota.Now()), ok, ota.Now())
      ensures ota.driver.reliable && MustSucceed(ota.driver, OtaData, args, old(ota.Now())) ==> ok
      ensures ok ==>
                && lastErr == old(lastErr) && ota.Now().upload.Some?
                && var u := ota.Now().upload.value;
                   payload == Digits(|u.data|) + ([47] + Digits(u.total))
      ensures |args| != 1 ==> lastErr == 2 && payload == []
      ensures |args| == 1 && !(Hex.IsHex(args[0]) && 0 < |args[0]| <= 2048) ==> lastErr == 2 && payload == Ascii("hex")
      ensures !ok && |args| == 1 && Hex.IsHex(args[0]) && 0 < |args[0]| <= 2048 ==>
                lastErr == 4 && payload == Ascii("write")
    {
      if |args| != 1 {
        lastErr := BAD_ARGS;
        return false, [];
      }
      var buf := new byte[CHUNK_CAP];
      var n := Hex.HexToBytes(args[0], buf);
      if n <= 0 {
        lastErr := BAD_ARGS;
        return false, Ascii("hex");
      }
      ok, payload := Store(buf[..n]);
    }

    method CEnd() returns (ok: bool, payload: bytes)
      requires ota.Valid()
      modifies this`lastErr, ota, ota.driver
      ensures ota.Valid() && NulFree(payload)
      ensures NextEnd(ota.driver.digest, old(ota.Now()), ok, ota.Now())
      ensures ota.driver.reliable && MustSucceed(ota.driver, OtaEnd, [], old(ota.Now())) ==> ok
      ensures ok ==> payload == Ascii("committed, rebooting") && lastErr == old(lastErr)
      ensures !ok ==> payload == Ascii("verify/commit failed") && lastErr == 4
    {
      ok := ota.End();
      if !ok {
        lastErr := HW_FAIL;
        return false, Ascii("verify/commit failed");
      }
      payload := Ascii("committed, rebooting");
    }

    /** Runs a handler; `custom` is what a handler other than ota.c's reports. A number in
        front of a slash is what has been received, the one behind it the total. */
    method RunHandler(h: Handler, args: seq<bytes>, custom: Outcome) returns (r: Outcome)
      requires ota.Valid() && NulFree(custom.payload)
      modifies this`lastErr, ota, ota.driver
      ensures ota.Valid() && NulFree(r.payload)
      ensures Handled(ota.driver.digest, h, args, old(ota.Now()), r.ok, ota.Now())
      ensures ota.driver.reliable && MustSucceed(ota.driver, h, args, old(ota.Now())) ==> r.ok
      ensures Says(h, args, custom, r, ota.Now()) && (h.Custom? ==> r == custom)
    {
      lastErr := 0;
      var ok, payload := true, [];
      match h {
        case OtaBegin => ok, payload := CBegin(args);
        case OtaData => ok, payload := CData(args);
        case OtaEnd => ok, payload := CEnd();
        case OtaAbort => ota.Abort();
        case Custom(_) =>
          lastErr := custom.code;
          ok, payload := custom.ok, custom.payload;
      }
      r := Outcome(ok, payload, lastErr);
    }

    /** Runs the handler the first token names and words the reply. */
    method Execute(toks: seq<bytes>, custom: Outcome) returns (reply: bytes, ghost r: Outcome)
      requires ota.Valid() && NulFree(custom.payload)
      requires forall k :: 0 <= k < |toks| ==> NulFree(toks[k])
      modifies this`lastErr, ota, ota.driver
      ensures ota.Valid() && NulFree(reply)
      ensures reply == Reply(table, toks, r) && Dispatched(table, ota.driver.digest, toks, old(ota.Now()), r, ota.Now())
      ensures ota.driver.reliable && Bound(table, ota.driver, toks, old(ota.Now())) ==> r.ok
      ensures Reports(table, toks, custom, r, ota.Now())
    {
      hide Handled;
      r := custom;
      if toks == [] {
        return Ascii("OK"), r;
      }
      var found := Lookup(toks[0]);
      if found.None? {
        reply := Ascii("ERR ") + (Signed(UNKNOWN_CMD) + Ascii(" unknown command: ") + toks[0]);
        return;
      }
      var outcome := RunHandler(found.value, toks[1..], custom);
      r, reply := outcome, Report(outcome);
    }

    /** cmd_dispatch: tokenises the line in place, runs the handler it names and
        formats the reply, which is cut to the buffer. */
    method Dispatch(line: array<byte>, out: array<byte>, custom: Outcome, ghost text: bytes)
      returns (n: int, ghost r: Outcome)
      requires ota.Valid() && NulFree(custom.payload) && NulFree(text) && Unread(line, text, 0)
      modifies line, out, this`lastErr, ota, ota.driver
      ensures ota.Valid()
      ensures out.Length < 8 ==> n == -1 && ota.Now() == old(ota.Now())
      ensures var toks := Tokens(text, 0, MAX_ARGV);
              8 <= out.Length ==>
                && Dispatched(table, ota.driver.digest, toks, old(ota.Now()), r, ota.Now())
                && n == |Reply(table, toks, r)|
                && StringAt(out[..], 0, Truncated(Reply(table, toks, r), out.Length - 1))
                && (ota.driver.reliable && Bound(table, ota.driver, toks, old(ota.Now())) ==> r.ok)
                && Reports(table, toks, custom, r, ota.Now())
    {
      if out.Length < 8 {
        return -1, custom;
      }
      var argv := Tokenize(line, MAX_ARGV, text);
      var toks := Arguments(line, argv, text, Tokens(text, 0, MAX_ARGV));
      var reply;
      reply, r := Execute(toks, custom);
      n := Snprintf(out, reply);
    }

    /** The scan of the command table. */
    method Lookup(name: bytes) returns (h: Option<Handler>)
      ensures h == Find(table, name)
    {
      var i := 0;
      while i < |table|
        invariant i <= |table| && Find(table[i..], name) == Find(table, name)
      {
        assert table[i..][1..] == table[i + 1..];
        if table[i].name == name {
          return Some(table[i].handler);
        }
        i := i + 1;
      }
      h := None;
    }
  }

  /** The strings that argv points at. */
  method Arguments(line: array<byte>, argv: seq<nat>, ghost text: bytes, ghost toks: seq<bytes>)
    returns (args: seq<bytes>)
    requires Points(line[..], argv, toks, |text|)
    ensures args == toks && forall k :: 0 <= k < |args| ==> NulFree(args[k])
  {
    args := [];
    for i := 0 to |argv|
      invariant args == toks[..i]
      invariant forall k :: 0 <= k < i ==> NulFree(args[k])
    {
      assert StringAt(line[..], argv[i], toks[i]);
      StringAtIsCString(line[..], argv[i], toks[i]);
      args := args + [CString(line[argv[i]..])];
    }
  }

  lemma {:induction false} FindAppendedName(table: seq<Entry>, e: Entry, name: bytes)
    ensures Find(table + [e], name) ==
            if Find(table, name).Some? then Find(table, name)
            else if e.name == name then Some(e.handler) else None
  {
    if table == [] {
      assert table + [e] == [e];
    } else {
      assert (table + [e])[1..] == table[1..] + [e];
      FindAppendedName(table[1..], e, name);
    }
  }

  lemma FindAppended(table: seq<Entry>, e: Entry)
    ensures forall name :: Find(table + [e], name) ==
                           if Find(table, name).Some? then Find(table, name)
                           else if e.name == name then Some(e.handler) else None
  {
    forall name: bytes
      ensures Find(table + [e], name) ==
              if Find(table, name).Some? then Find(table, name)
              else if e.name == name then Some(e.handler) else None
    {
      FindAppendedName(table, e, name);
    }
  }

  /** The body of session_loop for one received command: the plaintext becomes a C
      string, is dispatched, and the reply is what the response buffer shows. */
  method HandleLine(shell: Shell, plain: bytes, custom: Outcome) returns (reply: bytes, ghost r: Outcome)
    requires shell.ota.Valid() && NulFree(custom.payload) && |plain| <= MAX_LINE
    modifies shell`lastErr, shell.ota, shell.ota.driver
    ensures shell.ota.Valid()
    ensures var toks := Tokens(CString(plain), 0, MAX_ARGV);
            && Dispatched(shell.table, shell.ota.driver.digest, toks, old(shell.ota.Now()), r, shell.ota.Now())
            && reply == Truncated(Reply(shell.table, toks, r), MAX_RESP - 1)
            && (shell.ota.driver.reliable && Bound(shell.table, shell.ota.driver, toks, old(shell.ota.Now())) ==> r.ok)
            && Reports(shell.table, toks, custom, r, shell.ota.Now())
  {
    var line := new byte[MAX_LINE + 1];
    forall i | 0 <= i < |plain| {
      line[i] := plain[i];
    }
    line[|plain|] := 0;
    var resp := new byte[MAX_RESP];
    var n;
    n, r := shell.Dispatch(line, resp, custom, CString(plain));
    StringAtIsCString(resp[..], 0, Truncated(Reply(shell.table, Tokens(CString(plain), 0, MAX_ARGV), r), MAX_RESP - 1));
    reply := CString(resp[0..]);
  }
}
