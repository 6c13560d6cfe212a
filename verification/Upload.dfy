/** The upload loop of tools/esp-ctl/src/esp-ctl.c against the firmware's command path.
    The channel delivers a line and its reply unchanged or not at all. */
module UploadLoop {
  import opened Bytes
  import opened Decimal
  import opened Dispatch
  import Hex
  import opened Ota
  import opened Quoting
  import opened Tokenizer

  const MAX_HEX := (MAX_LINE - 16) / 2 * 2
  const CHUNK := MAX_HEX / 2

  /** The OTA commands are registered under their names. */
  ghost predicate HasOta(table: seq<Entry>) {
    && Find(table, Ascii("OTA_BEGIN")) == Some(OtaBegin)
    && Find(table, Ascii("OTA_DATA")) == Some(OtaData)
    && Find(table, Ascii("OTA_END")) == Some(OtaEnd)
  }

  function BeginLine(size: nat, sha: bytes): bytes {
    Join([Ascii("OTA_BEGIN"), Digits(size), Hex.Encode(sha)])
  }

  function DataLine(chunk: bytes): bytes {
    Join([Ascii("OTA_DATA"), Hex.Encode(chunk)])
  }

  lemma CommandNamesAreSafe()
    ensures PlainSafe(Ascii("OTA_BEGIN")) && PlainSafe(Ascii("OTA_DATA")) && PlainSafe(Ascii("OTA_END"))
  {
  }

  lemma HexIsSafe(b: bytes)
    requires b != []
    ensures PlainSafe(Hex.Encode(b))
  {
    Hex.EncodeDecode(b);
    assert forall i :: 0 <= i < |Hex.Encode(b)| ==> Hex.Nibble(Hex.Encode(b)[i]) >= 0;
  }

  lemma SafeLineIsRead(args: seq<bytes>)
    requires AllSafe(args) && |args| <= MAX_ARGV && forall k :: 0 <= k < |args| ==> NulFree(args[k])
    ensures Tokens(CString(Join(args)), 0, MAX_ARGV) == args
  {
    JoinNulFree(args);
    CStringOfNulFree(Join(args));
    UnquotedRoundTrip(args, MAX_ARGV);
  }

  lemma {:induction false} JoinNulFree(args: seq<bytes>)
    requires forall k :: 0 <= k < |args| ==> NulFree(args[k])
    ensures NulFree(Join(args))
    decreases |args|
  {
    if |args| > 1 {
      assert forall k :: 0 <= k < |args[1..]| ==> args[1..][k] == args[k + 1];
      JoinNulFree(args[1..]);
    }
  }

  lemma BeginLineIsRead(size: nat, sha: bytes)
    requires |sha| == SHA_LEN
    ensures Tokens(CString(BeginLine(size, sha)), 0, MAX_ARGV) == [Ascii("OTA_BEGIN"), Digits(size), Hex.Encode(sha)]
    ensures size < TWO_32 ==> Strtoul(Digits(size)) == size
  {
    CommandNamesAreSafe();
    HexIsSafe(sha);
    Hex.EncodeDecode(sha);
    SafeLineIsRead([Ascii("OTA_BEGIN"), Digits(size), Hex.Encode(sha)]);
    PrintedIsRead(size, []);
    assert Digits(size) + [] == Digits(size);
  }

  lemma DataLineIsRead(chunk: bytes)
    requires chunk != []
    ensures Tokens(CString(DataLine(chunk)), 0, MAX_ARGV) == [Ascii("OTA_DATA"), Hex.Encode(chunk)]
    ensures DataLine(chunk) == Ascii("OTA_DATA ") + Hex.Encode(chunk)
  {
    assert [Ascii("OTA_DATA"), Hex.Encode(chunk)][1..] == [Hex.Encode(chunk)];
    assert Ascii("OTA_DATA ") == Ascii("OTA_DATA") + [SPACE];
    CommandNamesAreSafe();
    HexIsSafe(chunk);
    Hex.EncodeDecode(chunk);
    SafeLineIsRead([Ascii("OTA_DATA"), Hex.Encode(chunk)]);
  }

  lemma EndLineIsRead()
    ensures Tokens(CString(Ascii("OTA_END")), 0, MAX_ARGV) == [Ascii("OTA_END")]
  {
    CommandNamesAreSafe();
    SafeLineIsRead([Ascii("OTA_END")]);
    assert Join([Ascii("OTA_END")]) == Ascii("OTA_END");
  }

  /** What becomes of a command: it never reaches the device; or it is carried out, and
      the reply is lost or arrives. `ok` tells whether the reply starts with OK. */
  datatype Fate = Lost | Mute(ok: bool) | Answered(ok: bool)
  {
    predicate Done(ok: bool) {
      this == Mute(ok) || this == Answered(ok)
    }
  }

  /** One command of the upload and its reply, over a link that may break at any time
      unless it is `steady`. */
  method Exchange(shell: Shell, line: bytes, custom: Outcome, steady: bool, ghost args: seq<bytes>)
    returns (fate: Fate)
    requires shell.ota.Valid() && NulFree(custom.payload) && |line| <= MAX_LINE
    requires args != [] && Find(shell.table, args[0]).Some? && Tokens(CString(line), 0, MAX_ARGV) == args
    modifies shell`lastErr, shell.ota, shell.ota.driver
    ensures shell.ota.Valid() && (steady ==> fate.Answered?)
    ensures fate.Lost? ==> shell.ota.Now() == old(shell.ota.Now())
    ensures !fate.Lost? ==>
              Handled(shell.ota.driver.digest, Find(shell.table, args[0]).value, args[1..],
                      old(shell.ota.Now()), fate.ok, shell.ota.Now())
    ensures shell.ota.driver.reliable && Bound(shell.table, shell.ota.driver, args, old(shell.ota.Now())) ==>
              fate.Lost? || fate.ok
  {
    var luck: int := *;
    if luck == 0 && !steady {
      return Lost;
    }
    var reply, r := HandleLine(shell, line, custom);
    RepliesAreNotEvents(shell.table, args, r, MAX_RESP);
    fate := if luck == 1 && !steady then Mute(StartsOk(reply)) else Answered(StartsOk(reply));
  }

  method SendBegin(shell: Shell, size: nat, sha: bytes, line: bytes, custom: Outcome, steady: bool) returns (fate: Fate)
    requires shell.ota.Valid() && HasOta(shell.table) && NulFree(custom.payload)
    requires |sha| == SHA_LEN && line == BeginLine(size, sha) && |line| <= MAX_LINE
    modifies shell`lastErr, shell.ota, shell.ota.driver
    ensures shell.ota.Valid() && (steady ==> fate.Answered?)
    ensures fate.Lost? ==> shell.ota.Now() == old(shell.ota.Now())
    ensures !fate.Lost? ==> NextBegin(old(shell.ota.Now()), Strtoul(Digits(size)), sha, fate.ok, shell.ota.Now())
    ensures shell.ota.driver.reliable && size <= shell.ota.driver.capacity ==> fate.Lost? || fate.ok
    ensures size < TWO_32 ==> Strtoul(Digits(size)) == size
  {
    BeginLineIsRead(size, sha);
    Hex.EncodeDecode(sha);
    fate := Exchange(shell, line, custom, steady, [Ascii("OTA_BEGIN"), Digits(size), Hex.Encode(sha)]);
  }

  /** An upload is in progress that has room for `n` more bytes. */
  predicate Fits(u: Option<Ota.Upload>, n: nat, capacity: nat) {
    u.Some? && |u.value.data| + n <= u.value.total <= capacity
  }

  method SendData(shell: Shell, line: bytes, chunk: bytes, custom: Outcome, steady: bool) returns (fate: Fate)
    requires shell.ota.Valid() && HasOta(shell.table) && NulFree(custom.payload)
    requires line == Ascii("OTA_DATA ") + Hex.Encode(chunk) && 0 < |chunk| <= CHUNK
    modifies shell`lastErr, shell.ota, shell.ota.driver
    ensures shell.ota.Valid() && (steady ==> fate.Answered?)
    ensures fate.Lost? ==> shell.ota.Now() == old(shell.ota.Now())
    ensures !fate.Lost? ==> NextData(old(shell.ota.Now()), chunk, fate.ok, shell.ota.Now())
    ensures var u := old(shell.ota.Now()).upload;
            shell.ota.driver.reliable && Fits(u, |chunk|, shell.ota.driver.capacity) ==> fate.Lost? || fate.ok
  {
    DataLineIsRead(chunk);
    Hex.EncodeDecode(chunk);
    fate := Exchange(shell, line, custom, steady, [Ascii("OTA_DATA"), Hex.Encode(chunk)]);
  }

  method SendEnd(shell: Shell, custom: Outcome, steady: bool) returns (fate: Fate)
    requires shell.ota.Valid() && HasOta(shell.table) && NulFree(custom.payload)
    modifies shell`lastErr, shell.ota, shell.ota.driver
    ensures shell.ota.Valid() && (steady ==> fate.Answered?)
    ensures EndExchange(shell.ota.driver.digest, old(shell.ota.Now()), fate, shell.ota.Now())
    ensures var u := old(shell.ota.Now()).upload;
            shell.ota.driver.reliable && u.Some? && Complete(shell.ota.driver.digest, u.value) ==> fate.Lost? || fate.ok
  {
    hide Tokens, CString;
    EndLineIsRead();
    ghost var v := shell.ota.Now();
    fate := Exchange(shell, Ascii("OTA_END"), custom, steady, [Ascii("OTA_END")]);
    assert EndExchange(shell.ota.driver.digest, v, fate, shell.ota.Now());
  }

  /** What OTA_END, in an exchange of some fate, does to the device. */
  ghost predicate EndExchange(digest: Digest, v: View, fate: Fate, w: View) {
    if fate.Lost? then w == v else NextEnd(digest, v, fate.ok, w)
  }

  /** The client's exit code after an exchange. */
  function ClientCode(fate: Fate): int {
    if !fate.Answered? then 3 else if fate.ok then 0 else 4
  }

  /** A failing upload can commit: OTA_END is carried out and its reply lost. Then the
      exit code is 3, although the device will boot the file. */
  lemma LostReplyCommits(digest: Digest, file: bytes)
    ensures var v := View(Some(Ota.Upload(|file|, digest(file), file)), None);
            var w := View(None, Some(file));
            EndExchange(digest, v, Mute(true), w) && ClientCode(Mute(true)) == 3 && w.boot != v.boot
  {
  }

  /** Writes the digits of a chunk into the line as long as there is room. */
  method AppendHex(line: array<byte>, start: nat, chunk: bytes, ghost s: bytes)
    requires |s| == start + 2 * |chunk| < line.Length && NulFree(s)
    requires forall k :: 0 <= k < start ==> line[k] == s[k]
    requires s[start..] == Hex.Encode(chunk)
    modifies line
    ensures StringAt(line[..], 0, s)
  {
    var off, i := start, 0;
    while i < |chunk| && off + 2 < line.Length
      invariant i <= |chunk| && off == start + 2 * i
      invariant forall k :: 0 <= k < off ==> line[k] == s[k]
    {
      Hex.EncodeAt(chunk, i);
      assert s[start..][2 * i] == Hex.Encode(chunk)[2 * i] && s[start..][2 * i + 1] == Hex.Encode(chunk)[2 * i + 1];
      line[off] := Hex.Digit(chunk[i] / 16);
      line[off + 1] := Hex.Digit(chunk[i] % 16);
      off, i := off + 2, i + 1;
    }
    line[off] := 0;
  }

  /** The client's line buffer for one chunk: the command name, then two hex digits
      for each byte. */
  method BuildDataLine(line: array<byte>, chunk: bytes)
    requires line.Length == MAX_LINE && |chunk| <= CHUNK
    modifies line
    ensures StringAt(line[..], 0, Ascii("OTA_DATA ") + Hex.Encode(chunk))
  {
    Hex.EncodeDecode(chunk);
    var off := Snprintf(line, Ascii("OTA_DATA "));
    AppendHex(line, off, chunk, Ascii("OTA_DATA ") + Hex.Encode(chunk));
  }

  /** One turn of the upload loop. */
  method SendChunk(shell: Shell, line: array<byte>, file: bytes, sent: nat, custom: Outcome, steady: bool)
    returns (fate: Fate, n: nat)
    requires shell.ota.Valid() && HasOta(shell.table) && NulFree(custom.payload)
    requires line.Length == MAX_LINE && sent < |file|
    modifies line, shell`lastErr, shell.ota, shell.ota.driver
    ensures shell.ota.Valid() && 0 < n <= |file| - sent && (steady ==> fate.Answered?)
    ensures fate.Lost? ==> shell.ota.Now() == old(shell.ota.Now())
    ensures !fate.Lost? ==> NextData(old(shell.ota.Now()), file[sent..sent + n], fate.ok, shell.ota.Now())
    ensures var u := old(shell.ota.Now()).upload;
            shell.ota.driver.reliable && Fits(u, n, shell.ota.driver.capacity) ==> fate.Lost? || fate.ok
  {
    n := Min(|file| - sent, CHUNK);
    BuildDataLine(line, file[sent..sent + n]);
    StringAtIsCString(line[..], 0, Ascii("OTA_DATA ") + Hex.Encode(file[sent..sent + n]));
    fate := SendData(shell, CString(line[..][0..]), file[sent..sent + n], custom, steady);
  }

  /** All chunks of the file, in order: on success the upload holds all of it. */
  method SendFile(shell: Shell, file: bytes, custom: Outcome, steady: bool) returns (rc: int)
    requires shell.ota.Valid() && HasOta(shell.table) && NulFree(custom.payload)
    requires shell.ota.Now().upload.Some? && shell.ota.Now().upload.value.data == []
    modifies shell`lastErr, shell.ota, shell.ota.driver
    ensures shell.ota.Valid() && SameChoice(old(shell.ota.Now()), shell.ota.Now())
    ensures rc == 0 || rc == 3 || rc == 4
    ensures rc == 0 ==> shell.ota.Now().upload == Some(old(shell.ota.Now()).upload.value.(data := file))
    ensures var total := old(shell.ota.Now()).upload.value.total;
            steady && shell.ota.driver.reliable && |file| == total <= shell.ota.driver.capacity ==> rc == 0
  {
    ghost var v := shell.ota.Now();
    ghost var u := v.upload.value;
    var sent := 0;
    var line := new byte[MAX_LINE];
    while sent < |file|
      invariant sent <= |file| && shell.ota.Valid()
      invariant shell.ota.Now().upload == Some(u.(data := file[..sent])) && SameChoice(v, shell.ota.Now())
    {
      var fate, n := SendChunk(shell, line, file, sent, custom, steady);
      if ClientCode(fate) != 0 {
        return ClientCode(fate);
      }
      assert file[..sent + n] == file[..sent] + file[sent..sent + n];
      sent := sent + n;
    }
    assert file[..sent] == file;
    rc := 0;
  }

  /** do_ota_upload; `end` is the fate of OTA_END. Exit code 0 means that the device will
      boot exactly this file. Any other leaves its choice of the partition to boot alone if
      the link is steady; over another link the device will boot the file all the same if
      OTA_END has been carried out and only its reply was lost. A file that is not empty
      and fits is uploaded when neither the link nor the crypto library nor a driver
      fails. */
  method Upload(shell: Shell, file: bytes, cryptoFails: bool, custom: Outcome, steady: bool)
    returns (rc: int, ghost end: Fate)
    requires shell.ota.Valid() && HasOta(shell.table) && NulFree(custom.payload)
    requires |file| < TWO_64
    modifies shell`lastErr, shell.ota, shell.ota.driver
    ensures shell.ota.Valid() && (rc == 0 || rc == 3 || rc == 4)
    ensures rc == 0 <==> end == Answered(true)
    ensures end == Mute(true) ==> rc == 3
    ensures end.Done(true) ==> file != []
    ensures var v, w := old(shell.ota.Now()), shell.ota.Now();
            && (if end.Done(true) then w.boot == Some(file) else SameChoice(v, w))
            && (steady && rc != 0 ==> SameChoice(v, w))
    ensures !cryptoFails && steady && shell.ota.driver.reliable && 0 < |file| <= shell.ota.driver.capacity ==> rc == 0
  {
    end := Lost;
    if |file| == 0 || cryptoFails {
      return 3, end;
    }
    var sha := shell.ota.driver.digest(file);
    BeginLineFits(|file|, sha);
    var fate := SendBegin(shell, |file|, sha, BeginLine(|file|, sha), custom, steady);
    if ClientCode(fate) != 0 {
      return ClientCode(fate), end;
    }
    rc := SendFile(shell, file, custom, steady);
    if rc != 0 {
      return;
    }
    fate := SendEnd(shell, custom, steady);
    rc, end := ClientCode(fate), fate;
  }

  lemma BeginLineFits(size: nat, sha: bytes)
    requires size < TWO_64 && |sha| == SHA_LEN
    ensures |BeginLine(size, sha)| <= MAX_LINE
  {
    assert Pow10(5) == 100000;
    assert Pow10(10) == 100000 * 100000;
    assert Pow10(15) == Pow10(10) * 100000;
    assert Pow10(20) == Pow10(15) * 100000;
    DigitsLength(size, 20);
    var parts := [Ascii("OTA_BEGIN"), Digits(size), Hex.Encode(sha)];
    JoinLength(parts);
    assert parts[1..] == [Digits(size), Hex.Encode(sha)];
    assert parts[1..][1..] == [Hex.Encode(sha)];
    assert Total(parts[1..][1..]) == |Hex.Encode(sha)| + Total([]);
  }
}
